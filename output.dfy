/**
 * The `match cli.output` arms of `main` (src/main.rs): the addresses that
 * `calculate_all_ips` returns, written out as CSV, JSON or plain lines.
 * `print!` and `println!` append to the text written so far.
 */
module Output {
  import opened Wrappers
  import opened Text
  import opened IpNet
  import opened Ips
  import opened AddrText

  datatype OutputFormat = Csv | Json | Plain

  /** What the command-line parser hands to `main`. */
  datatype Cli = Cli(cidr: string, all: bool, dangerZone: bool, output: OutputFormat)

  /**
   * The iterator `calculate_all_ips` returns, as the loops of `main` pull
   * from it: `rest` is what it has still to yield.
   */
  class IpStream {
    var rest: seq<Ip>

    constructor (ips: seq<Ip>)
      ensures rest == ips
    {
      rest := ips;
    }

    /** `Iterator::next`. */
    method Next() returns (o: Option<Ip>)
      modifies this
      ensures old(rest) == [] ==> o == None && rest == []
      ensures old(rest) != [] ==> o == Some(old(rest)[0]) && rest == old(rest)[1..]
    {
      if rest == [] {
        o := None;
      } else {
        o := Some(rest[0]);
        rest := rest[1..];
      }
    }

    /** `Peekable::peek`: the element `Next` would yield, left in place. */
    function Peek(): (o: Option<Ip>)
      reads this
      ensures o.None? <==> rest == []
      ensures o.Some? ==> o.value == rest[0]
    {
      if rest == [] then None else Some(rest[0])
    }
  }

  /** The text `{ip}` writes for each address. */
  function Texts(ips: seq<Ip>): (ts: seq<string>)
    ensures |ts| == |ips|
    ensures forall i :: 0 <= i < |ips| ==> ts[i] == Render(ips[i])
  {
    seq(|ips|, i requires 0 <= i < |ips| => Render(ips[i]))
  }

  function Quoted(ts: seq<string>): (qs: seq<string>)
    ensures |qs| == |ts|
    ensures forall i :: 0 <= i < |ts| ==> qs[i] == Quote(ts[i])
  {
    seq(|ts|, i requires 0 <= i < |ts| => Quote(ts[i]))
  }

  /** Each string followed by a newline, as one `println!` per string writes them. */
  function Lines(ts: seq<string>): string
  {
    if |ts| == 0 then "" else Lines(ts[..|ts| - 1]) + ts[|ts| - 1] + "\n"
  }

  /** The first line of CSV output. */
  const CSV_HEADER: string := "\"ips\""

  /** The CSV arm: the header line `"ips"`, then each address quoted on a line of its own. */
  function CsvText(ips: seq<Ip>): string
  {
    Lines([CSV_HEADER] + Quoted(Texts(ips)))
  }

  /**
   * The JSON arm: one line holding the quoted addresses between brackets,
   * separated by commas.
   */
  function JsonText(ips: seq<Ip>): string
  {
    "[" + Join(Quoted(Texts(ips)), ',') + "]\n"
  }

  /**
   * No sequence gives a dangling comma: `[]` for none, `["X"]` for one, and
   * otherwise the closing bracket follows a quote.
   */
  lemma JsonShape(ips: seq<Ip>)
    ensures |ips| == 0 ==> JsonText(ips) == "[]\n"
    ensures |ips| == 1 ==> JsonText(ips) == "[" + Quote(Render(ips[0])) + "]\n"
    ensures var out := JsonText(ips);
      |out| >= 3 && out[0] == '[' && out[|out| - 2..] == "]\n"
    ensures |ips| > 0 ==> var out := JsonText(ips); out[|out| - 3] == '"'
  {
    var items := Quoted(Texts(ips));
    var body := Join(items, ',');
    assert JsonText(ips) == "[" + body + "]\n";
    if |ips| == 1 {
      assert body == items[0] == Quote(Render(ips[0]));
    }
    if |ips| > 0 {
      JoinEndsWithLast(items, ',');
      var last := items[|items| - 1];
      assert body[|body| - 1] == last[|last| - 1] == '"';
    }
  }

  /** The plain arm: each address on a line of its own, no header, no quotes. */
  function PlainText(ips: seq<Ip>): string
  {
    Lines(Texts(ips))
  }

  function Formatted(format: OutputFormat, ips: seq<Ip>): string
  {
    match format
    case Csv => CsvText(ips)
    case Json => JsonText(ips)
    case Plain => PlainText(ips)
  }

  /** One more string adds one more line. */
  lemma LinesSnoc(ts: seq<string>, t: string)
    ensures Lines(ts + [t]) == Lines(ts) + t + "\n"
  {
    assert (ts + [t])[..|ts|] == ts;
  }

  lemma TextsSnoc(ips: seq<Ip>, k: nat)
    requires k < |ips|
    ensures Texts(ips[..k + 1]) == Texts(ips[..k]) + [Render(ips[k])]
    ensures Quoted(Texts(ips[..k + 1])) == Quoted(Texts(ips[..k])) + [Quote(Render(ips[k]))]
  {
    var a, b := Texts(ips[..k + 1]), Texts(ips[..k]) + [Render(ips[k])];
    assert forall i :: 0 <= i < |a| ==> a[i] == b[i];
    QuotedSnoc(Texts(ips[..k]), Render(ips[k]));
  }

  lemma QuotedSnoc(ts: seq<string>, t: string)
    ensures Quoted(ts + [t]) == Quoted(ts) + [Quote(t)]
  {
    var a, b := Quoted(ts + [t]), Quoted(ts) + [Quote(t)];
    assert forall i :: 0 <= i < |a| ==> a[i] == b[i];
  }

  /** Writing one more address extends the CSV text by its line. */
  lemma CsvStep(ips: seq<Ip>, k: nat)
    requires k < |ips|
    ensures Lines([CSV_HEADER] + Quoted(Texts(ips[..k + 1])))
         == Lines([CSV_HEADER] + Quoted(Texts(ips[..k]))) + Quote(Render(ips[k])) + "\n"
  {
    var before := [CSV_HEADER] + Quoted(Texts(ips[..k]));
    TextsSnoc(ips, k);
    assert [CSV_HEADER] + Quoted(Texts(ips[..k + 1])) == before + [Quote(Render(ips[k]))];
    LinesSnoc(before, Quote(Render(ips[k])));
  }

  /** Writing one more address extends the JSON items by it, after a comma unless it is the first. */
  lemma JsonStep(ips: seq<Ip>, k: nat)
    requires k < |ips|
    ensures k == 0 ==> Join(Quoted(Texts(ips[..k + 1])), ',') == Quote(Render(ips[k]))
    ensures k > 0 ==>
      Join(Quoted(Texts(ips[..k + 1])), ',') == Join(Quoted(Texts(ips[..k])), ',') + "," + Quote(Render(ips[k]))
  {
    var before := Quoted(Texts(ips[..k]));
    var item := Quote(Render(ips[k]));
    TextsSnoc(ips, k);
    assert Quoted(Texts(ips[..k + 1])) == before + [item];
    if k > 0 {
      JoinSnoc(before, item, ',');
    } else {
      assert before + [item] == [item];
    }
  }

  /** Writing one more address extends the plain text by its line. */
  lemma PlainStep(ips: seq<Ip>, k: nat)
    requires k < |ips|
    ensures Lines(Texts(ips[..k + 1])) == Lines(Texts(ips[..k])) + Render(ips[k]) + "\n"
  {
    TextsSnoc(ips, k);
    LinesSnoc(Texts(ips[..k]), Render(ips[k]));
  }

  /** The CSV arm: `println!("\"ips\"")`, then `println!("\"{ip}\"")` for each address. */
  method WriteCsv(ips: seq<Ip>) returns (out: string)
    ensures out == CsvText(ips)
  {
    out := CSV_HEADER + "\n";
    assert out == Lines([CSV_HEADER]);
    var stream := new IpStream(ips);
    ghost var done := 0;
    while true
      invariant 0 <= done <= |ips| && stream.rest == ips[done..]
      invariant out == Lines([CSV_HEADER] + Quoted(Texts(ips[..done])))
      decreases |stream.rest|
    {
      var next := stream.Next();
      if next.None? {
        break;
      }
      var line := Quote(Render(next.value));
      CsvStep(ips, done);
      out := out + line + "\n";
      done := done + 1;
    }
    assert ips[..done] == ips;
  }

  /**
   * The JSON arm: `[`, then each address quoted, followed by a comma unless
   * `peek()` finds nothing after it, then `]` and a newline.
   */
  method WriteJson(ips: seq<Ip>) returns (out: string)
    ensures out == JsonText(ips)
  {
    out := "[";
    var stream := new IpStream(ips);
    ghost var done := 0;
    ghost var body := "";
    while true
      invariant 0 <= done <= |ips| && stream.rest == ips[done..]
      invariant body == Join(Quoted(Texts(ips[..done])), ',')
      invariant out == "[" + body + (if 0 < done < |ips| then "," else "")
      decreases |stream.rest|
    {
      var next := stream.Next();
      if next.None? {
        break;
      }
      assert next.value == ips[done] && stream.rest == ips[done + 1..];
      var item := Quote(Render(next.value));
      JsonStep(ips, done);
      ghost var extended := if done == 0 then item else body + "," + item;
      if done > 0 {
        ConcatAssoc("[", body, ",");
        ConcatAssoc("[", body + ",", item);
      }
      assert out + item == "[" + extended;
      if stream.Peek().None? {
        assert done + 1 == |ips|;
        out := out + item;
      } else {
        assert done + 1 < |ips|;
        out := out + item + ",";
      }
      done := done + 1;
      body := extended;
    }
    assert ips[..done] == ips;
    out := out + "]\n";
  }

  /** The plain arm: `println!("{ip}")` for each address. */
  method WritePlain(ips: seq<Ip>) returns (out: string)
    ensures out == PlainText(ips)
  {
    out := "";
    var stream := new IpStream(ips);
    ghost var done := 0;
    while true
      invariant 0 <= done <= |ips| && stream.rest == ips[done..]
      invariant out == Lines(Texts(ips[..done]))
      decreases |stream.rest|
    {
      var next := stream.Next();
      if next.None? {
        break;
      }
      PlainStep(ips, done);
      out := out + Render(next.value) + "\n";
      done := done + 1;
    }
    assert ips[..done] == ips;
  }

  /**
   * `main` after argument parsing: standard output gets the chosen format of
   * the addresses; a CIDR that does not parse puts only `Error: <message>` on
   * standard error.
   */
  method Run(cli: Cli, parsed: Result<Net, string>) returns (stdout: string, stderr: string)
    ensures var r := CalculateAllIps(cli.cidr, parsed, cli.all, cli.dangerZone);
      && (r.Success? ==> stdout == Formatted(cli.output, r.value) && stderr == "")
      && (r.Failure? ==> stdout == "" && stderr == "Error: " + r.error + "\n")
  {
    stdout, stderr := "", "";
    match CalculateAllIps(cli.cidr, parsed, cli.all, cli.dangerZone)
    case Success(ips) =>
      match cli.output {
        case Csv =>
          stdout := WriteCsv(ips);
        case Json =>
          stdout := WriteJson(ips);
        case Plain =>
          stdout := WritePlain(ips);
      }
    case Failure(err) =>
      stderr := "Error: " + err + "\n";
  }
}
