/**
 * Classification of one link (`check_link`): a HEAD request, a GET fallback
 * when HEAD answers with a client or server error, and a status built from
 * whichever request came last. The network is abstracted: each request is
 * given as its outcome, either the HTTP status code it answered with or the
 * request exception it raised.
 */
module Probe {
  import opened Options
  import opened Text

  /** What one HTTP request produced. */
  datatype Outcome = Code(code: int) | Raised

  /** The classified health of a link. */
  datatype Status = OK | Error(code: nat) | Broken

  /** The status text that is persisted and displayed: "OK", "Error <code>",
      "Broken". The text is "OK" exactly for the `OK` status, so comparing it
      with "OK" is the same as asking whether the link is healthy. */
  function Display(s: Status): (r: string)
    ensures r == "OK" <==> s.OK?
  {
    match s
    case OK => "OK"
    case Error(c) => "Error " + NatToDecimal(c)
    case Broken => "Broken"
  }

  /** The condition under which HEAD is followed by GET. Its `405, 403`
      disjunct adds nothing: both codes are already at least 400. */
  predicate HeadFallback(code: int)
    ensures HeadFallback(code) <==> code >= 400
  {
    code == 405 || code == 403 || code >= 400
  }

  /** The requests a check performs, in order: HEAD, then GET only when HEAD
      answered with a code of at least 400. */
  function Performed(head: Outcome, get: Outcome): (p: seq<Outcome>)
    ensures 1 <= |p| <= 2 && p[0] == head
    ensures |p| == 2 <==> head.Code? && head.code >= 400
    ensures |p| == 2 ==> p[1] == get
  {
    if head.Code? && HeadFallback(head.code) then [head, get] else [head]
  }

  /** `check_link`: the status of a link given the outcomes its HEAD and
      (possible) GET request would have. */
  function CheckLink(head: Outcome, get: Outcome): (s: Status)
    ensures var p := Performed(head, get);
      s.Broken? <==> exists k :: 0 <= k < |p| && p[k].Raised?
    ensures var p := Performed(head, get);
      !s.Broken? ==> var last := p[|p| - 1];
        && last.Code?
        && (s.OK? <==> last.code < 400)
        && (s.Error? ==> s.code == last.code)
  {
    match head
    case Raised => Broken
    case Code(h) =>
      var final := if HeadFallback(h) then get else head;
      match final
      case Raised => Broken
      case Code(c) => if c >= 400 then Error(c) else OK
  }

  /** When no GET is performed its outcome cannot influence the status. */
  lemma GetIrrelevantWithoutFallback(head: Outcome, get1: Outcome, get2: Outcome)
    requires |Performed(head, get1)| == 1
    ensures CheckLink(head, get1) == CheckLink(head, get2)
  {
  }

  /** Only the three statuses above come out of a check; an `Error` always
      carries a code of at least 400. */
  lemma CheckLinkErrorCodes(head: Outcome, get: Outcome)
    ensures CheckLink(head, get).Error? ==> CheckLink(head, get).code >= 400
  {
  }

  /** Reads a persisted status text back; `None` for text no check produces. */
  function ParseStatus(t: string): Option<Status> {
    if t == "OK" then Some(OK)
    else if t == "Broken" then Some(Broken)
    else if |t| > 6 && t[..6] == "Error " && AllDigits(t[6..]) then Some(Error(DecimalValue(t[6..])))
    else None
  }

  /** A status survives being written as text and read back, so the model can
      keep persisted statuses as `Status` values without losing anything. */
  lemma {:induction false} DisplayRoundTrip(s: Status)
    ensures ParseStatus(Display(s)) == Some(s)
  {
    if s.Error? {
      var t := Display(s);
      assert t[..6] == "Error ";
      assert t[6..] == NatToDecimal(s.code);
      assert t != "OK" && t != "Broken" by {
        assert |t| > 6;
      }
      DecimalRoundTrip(s.code);
    }
  }

  /** `status_order` of the sort key: keyed by the first token of the status text. */
  const StatusOrder: map<string, nat> := map["Error" := 0, "Broken" := 0, "OK" := 1]

  /** `status_order.get(text.split()[0], 1)`. Python raises on text without any
      token; the requirement rules that out. Rank 0 goes to the words "Error"
      and "Broken"; every other first word, known or not, ranks 1. */
  function RankOfText(t: string): (r: nat)
    requires FirstToken(t).Some?
    ensures r == 0 <==> FirstToken(t).value == "Error" || FirstToken(t).value == "Broken"
    ensures r <= 1
  {
    var tok := FirstToken(t).value;
    if tok in StatusOrder then StatusOrder[tok] else 1
  }

  /** The first token of each status text is its leading word. */
  lemma FirstTokenOfDisplay(s: Status)
    ensures FirstToken(Display(s)) == Some(match s case OK => "OK" case Error(_) => "Error" case Broken => "Broken")
  {
    match s
    case OK =>
      FirstTokenOfWord("OK", "");
      assert "OK" + "" == Display(s);
    case Error(c) =>
      FirstTokenOfErrorText(c);
    case Broken =>
      FirstTokenOfWord("Broken", "");
      assert "Broken" + "" == Display(s);
  }

  lemma FirstTokenOfErrorText(c: nat)
    ensures FirstToken(Display(Error(c))) == Some("Error")
  {
    var rest := " " + NatToDecimal(c);
    assert "Error" + rest == Display(Error(c));
    FirstTokenOfWord("Error", rest);
  }

  /** The sort rank of a status: failures (rank 0) before healthy links (rank 1).
      With the statuses this checker produces, rank 0 means exactly "not OK". */
  function Rank(s: Status): (r: nat)
    ensures r == 0 <==> !s.OK?
    ensures r <= 1
  {
    FirstTokenOfDisplay(s);
    RankOfText(Display(s))
  }
}
