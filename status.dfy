/** Status codes and the status values recorded in a blob's log
    (pkg/blob/status.go). */
module StatusCodes {

  /** A status code; the source declares it as a plain `int`, of which only
      three values are named. */
  type StatusCode = int

  const OK: StatusCode := 0
  const Failure: StatusCode := -1
  const Pending: StatusCode := -2

  /** One of the three named codes. */
  predicate IsKnown(c: StatusCode)
  {
    c == OK || c == Failure || c == Pending
  }

  /** A status: a code and a free-form message. */
  datatype Status = Status(code: StatusCode, msg: string)

  /** `StatusCode.String`: the name of a named code, "Unknown code" for any
      other value. */
  function CodeText(c: StatusCode): (t: string)
    ensures t == "Unknown code" <==> !IsKnown(c)
    ensures t != ""
  {
    if c == OK then "OK"
    else if c == Failure then "Failure"
    else if c == Pending then "Pending"
    else "Unknown code"
  }

  /** `Status.String`: the code's text, followed by " - " and the message when
      there is one. */
  function StatusText(s: Status): string
  {
    if s.msg == "" then CodeText(s.code) else CodeText(s.code) + " - " + s.msg
  }

  /** `NewStatusOK`. */
  function NewStatusOK(info: string): (s: Status)
    ensures s.code == OK && s.msg == info
    ensures StatusText(s) == if info == "" then "OK" else "OK - " + info
  {
    Status(OK, info)
  }

  /** `NewStatusPending`. */
  function NewStatusPending(info: string): (s: Status)
    ensures s.code == Pending && s.msg == info
    ensures StatusText(s) == if info == "" then "Pending" else "Pending - " + info
  {
    Status(Pending, info)
  }

  /** The three named codes are the distinct values 0, -1 and -2. */
  lemma NamedCodesDistinct()
    ensures OK == 0 && Failure == -1 && Pending == -2
    ensures OK != Failure && OK != Pending && Failure != Pending
  {
  }

  /** Distinct named codes are rendered differently, and none of them as
      "Unknown code". */
  lemma CodeTextInjective(a: StatusCode, b: StatusCode)
    requires IsKnown(a) && IsKnown(b) && a != b
    ensures CodeText(a) != CodeText(b)
    ensures CodeText(a) != "Unknown code"
  {
  }

  /** The rendering of a status starts with the rendering of its code; what
      follows is empty for an empty message and " - " plus the message
      otherwise. */
  lemma {:induction false} StatusTextParts(s: Status)
    ensures var t, c := StatusText(s), CodeText(s.code);
      && |c| <= |t| && t[..|c|] == c
      && (s.msg == "" <==> |t| == |c|)
      && (s.msg != "" ==> t[|c|..] == " - " + s.msg)
  {
    var t, c := StatusText(s), CodeText(s.code);
    if s.msg != "" {
      assert t == c + (" - " + s.msg);
    }
  }

  /** Given the code, the rendering of a status determines its message. */
  lemma {:induction false} StatusTextDeterminesMsg(c: StatusCode, m1: string, m2: string)
    requires StatusText(Status(c, m1)) == StatusText(Status(c, m2))
    ensures m1 == m2
  {
    StatusTextParts(Status(c, m1));
    StatusTextParts(Status(c, m2));
    if m1 != "" && m2 != "" {
      var t, k := StatusText(Status(c, m1)), |CodeText(c)|;
      assert " - " + m1 == t[k..] == " - " + m2;
      assert m1 == (" - " + m1)[3..];
      assert m2 == (" - " + m2)[3..];
    }
  }
}
