/**
 * Reading the output of `main` back: each format lists every address once,
 * in the order `calculate_all_ips` yields them, and nothing else.
 */
module Readback {
  import opened Wrappers
  import opened Text
  import opened IpNet
  import opened AddrText
  import opened Output

  /** The lines of a text that ends in a newline, or None if it does not. */
  function ReadLines(s: string): Option<seq<string>>
  {
    var ls := Split(s, '\n');
    if ls[|ls| - 1] == "" then Some(ls[..|ls| - 1]) else None
  }

  function ParseAll(ts: seq<string>): (ips: seq<IpAddr>)
    ensures |ips| == |ts|
    ensures forall i :: 0 <= i < |ts| ==> ips[i] == ParseIp(ts[i])
  {
    seq(|ts|, i requires 0 <= i < |ts| => ParseIp(ts[i]))
  }

  /** The insides of a sequence of quoted strings, or None if one of them is not quoted. */
  function UnquoteAll(qs: seq<string>): Option<seq<string>>
    decreases |qs|
  {
    if |qs| == 0 then Some([])
    else match (Unquote(qs[0]), UnquoteAll(qs[1..]))
      case (Some(t), Some(ts)) => Some([t] + ts)
      case _ => None
  }

  function DecodePlain(s: string): Option<seq<IpAddr>>
  {
    match ReadLines(s)
    case Some(ls) => Some(ParseAll(ls))
    case None => None
  }

  function DecodeCsv(s: string): Option<seq<IpAddr>>
  {
    match ReadLines(s)
    case Some(ls) =>
      if |ls| >= 1 && ls[0] == CSV_HEADER then
        match UnquoteAll(ls[1..])
        case Some(ts) => Some(ParseAll(ts))
        case None => None
      else None
    case None => None
  }

  function DecodeJson(s: string): Option<seq<IpAddr>>
  {
    if |s| >= 3 && s[0] == '[' && s[|s| - 2..] == "]\n" then
      var inner := s[1..|s| - 2];
      if inner == "" then Some([])
      else
        match UnquoteAll(Split(inner, ','))
        case Some(ts) => Some(ParseAll(ts))
        case None => None
    else None
  }

  lemma {:induction false} UnquoteQuoted(ts: seq<string>)
    ensures UnquoteAll(Quoted(ts)) == Some(ts)
    decreases |ts|
  {
    if |ts| > 0 {
      UnquoteQuoted(ts[1..]);
      assert Quoted(ts)[1..] == Quoted(ts[1..]);
      UnquoteQuote(ts[0]);
      assert [ts[0]] + ts[1..] == ts;
    }
  }

  /** The lines are the strings, each ended by a newline: joined with newlines and one more. */
  lemma {:induction false} LinesAsJoin(ts: seq<string>)
    ensures Lines(ts) == Join(ts + [""], '\n')
    decreases |ts|
  {
    if |ts| > 0 {
      var init, t := ts[..|ts| - 1], ts[|ts| - 1];
      LinesAsJoin(init);
      assert ts == init + [t];
      JoinSnoc(ts, "", '\n');
      if |init| > 0 {
        JoinSnoc(init, "", '\n');
        JoinSnoc(init, t, '\n');
      }
      assert Join(init + [""], '\n') + t == Join(ts, '\n');
    }
  }

  /** Strings without a newline, written one per line, read back as the same lines. */
  lemma ReadLinesOf(ts: seq<string>)
    requires forall i :: 0 <= i < |ts| ==> '\n' !in ts[i]
    ensures ReadLines(Lines(ts)) == Some(ts)
  {
    LinesAsJoin(ts);
    SplitJoin(ts + [""], '\n');
    assert (ts + [""])[..|ts|] == ts;
  }

  /** No address text holds a quote, a comma or a newline. */
  lemma RenderPlain(ip: Ip)
    ensures '"' !in Render(ip) && ',' !in Render(ip) && '\n' !in Render(ip)
  {
    RenderAlphabet(ip);
  }

  lemma ParseTexts(ips: seq<Ip>)
    ensures ParseAll(Texts(ips)) == ips
  {
    forall i | 0 <= i < |ips|
      ensures ParseAll(Texts(ips))[i] == ips[i]
    {
      ParseRender(ips[i]);
    }
  }

  /** Plain output lists every address once, in order, one per line. */
  lemma PlainRoundTrip(ips: seq<Ip>)
    ensures DecodePlain(PlainText(ips)) == Some(ips)
  {
    forall i | 0 <= i < |ips|
      ensures '\n' !in Texts(ips)[i]
    {
      RenderPlain(ips[i]);
    }
    ReadLinesOf(Texts(ips));
    ParseTexts(ips);
  }

  /** CSV output is the header `"ips"`, then every address once, quoted, in order. */
  lemma CsvRoundTrip(ips: seq<Ip>)
    ensures DecodeCsv(CsvText(ips)) == Some(ips)
  {
    var qs := Quoted(Texts(ips));
    CsvLines(ips);
    assert ([CSV_HEADER] + qs)[1..] == qs;
    UnquoteQuoted(Texts(ips));
    ParseTexts(ips);
  }

  lemma CsvLines(ips: seq<Ip>)
    ensures ReadLines(CsvText(ips)) == Some([CSV_HEADER] + Quoted(Texts(ips)))
  {
    var all := [CSV_HEADER] + Quoted(Texts(ips));
    forall i | 0 <= i < |all|
      ensures '\n' !in all[i]
    {
      if i > 0 {
        RenderPlain(ips[i - 1]);
      }
    }
    ReadLinesOf(all);
  }

  /** JSON output is one bracketed line listing every address once, quoted, in order. */
  lemma JsonRoundTrip(ips: seq<Ip>)
    ensures DecodeJson(JsonText(ips)) == Some(ips)
  {
    var qs := Quoted(Texts(ips));
    var out := JsonText(ips);
    JsonShape(ips);
    assert out[1..|out| - 2] == Join(qs, ',');
    if |ips| > 0 {
      forall i | 0 <= i < |qs|
        ensures ',' !in qs[i]
      {
        RenderPlain(ips[i]);
      }
      SplitJoin(qs, ',');
      assert qs[0] != "";
      assert Join(qs, ',') != "" by {
        JoinStartsWithFirst(qs, ',');
      }
      UnquoteQuoted(Texts(ips));
      ParseTexts(ips);
    }
  }
}
