/** Characters and strings: digits, separators, quoting. */
module Text {
  import opened Numerals
  import opened Wrappers

  /** The characters `{}` and `{:x}` print for a digit: `0`-`9` and lower-case `a`-`f`. */
  predicate IsDigitChar(c: char)
  {
    '0' <= c <= '9' || 'a' <= c <= 'f'
  }

  function DigitChar(d: nat): (c: char)
    requires d < 16
    ensures IsDigitChar(c)
  {
    if d < 10 then ('0' as int + d) as char else ('a' as int + (d - 10)) as char
  }

  /** The digit a digit character stands for; other characters read as 0. */
  function DigitValue(c: char): (d: nat)
    ensures d < 16
    ensures forall e :: 0 <= e < 16 && DigitChar(e) == c ==> d == e
  {
    if '0' <= c <= '9' then c as int - '0' as int
    else if 'a' <= c <= 'f' then c as int - 'a' as int + 10
    else 0
  }

  /** `n` written in `base` without leading zeros, lower-case. */
  function Numeral(n: nat, base: nat): (s: string)
    requires 2 <= base <= 16
    ensures |s| >= 1
    ensures forall i :: 0 <= i < |s| ==> IsDigitChar(s[i])
  {
    var ds := Digits(n, base);
    seq(|ds|, i requires 0 <= i < |ds| => DigitChar(ds[i]))
  }

  function ParseNumeral(s: string, base: nat): nat
  {
    Value(seq(|s|, i requires 0 <= i < |s| => DigitValue(s[i])), base)
  }

  lemma NumeralRoundTrip(n: nat, base: nat)
    requires 2 <= base <= 16
    ensures ParseNumeral(Numeral(n, base), base) == n
  {
    var s := Numeral(n, base);
    assert seq(|s|, i requires 0 <= i < |s| => DigitValue(s[i])) == Digits(n, base);
  }

  lemma ConcatAssoc(a: string, b: string, c: string)
    ensures (a + b) + c == a + (b + c)
  {
  }

  /** `parts` with `sep` between consecutive ones. */
  function Join(parts: seq<string>, sep: char): string
    decreases |parts|
  {
    if |parts| == 0 then ""
    else if |parts| == 1 then parts[0]
    else parts[0] + [sep] + Join(parts[1..], sep)
  }

  /** The pieces of `s` between occurrences of `sep`; always at least one piece. */
  function Split(s: string, sep: char): (parts: seq<string>)
    ensures |parts| >= 1
    decreases |s|
  {
    if |s| == 0 then [""]
    else if s[0] == sep then [""] + Split(s[1..], sep)
    else
      var rest := Split(s[1..], sep);
      [[s[0]] + rest[0]] + rest[1..]
  }

  lemma {:induction false} JoinSnoc(parts: seq<string>, p: string, sep: char)
    requires |parts| >= 1
    ensures Join(parts + [p], sep) == Join(parts, sep) + [sep] + p
    decreases |parts|
  {
    if |parts| > 1 {
      assert (parts + [p])[1..] == parts[1..] + [p];
      JoinSnoc(parts[1..], p, sep);
    }
  }

  /** A join starts with its first piece. */
  lemma JoinStartsWithFirst(parts: seq<string>, sep: char)
    ensures |parts| >= 1 ==> |Join(parts, sep)| >= |parts[0]| && Join(parts, sep)[..|parts[0]|] == parts[0]
  {
  }

  /** A join ends with its last piece. */
  lemma {:induction false} JoinEndsWithLast(parts: seq<string>, sep: char)
    ensures |parts| >= 1 ==>
      var s, last := Join(parts, sep), parts[|parts| - 1];
      |s| >= |last| && s[|s| - |last|..] == last
    decreases |parts|
  {
    if |parts| > 1 {
      JoinEndsWithLast(parts[1..], sep);
    }
  }

  /** A piece without `sep`, then `sep` and the rest, splits into that piece and the pieces of the rest. */
  lemma {:induction false} SplitPiece(p: string, t: string, sep: char)
    requires sep !in p
    ensures Split(p + t, sep) == [p + Split(t, sep)[0]] + Split(t, sep)[1..]
    decreases |p|
  {
    if |p| > 0 {
      assert (p + t)[1..] == p[1..] + t;
      SplitPiece(p[1..], t, sep);
      assert [p[0]] + (p[1..] + Split(t, sep)[0]) == p + Split(t, sep)[0];
    } else {
      assert p + t == t && p + Split(t, sep)[0] == Split(t, sep)[0];
      assert Split(t, sep) == [Split(t, sep)[0]] + Split(t, sep)[1..];
    }
  }

  /** Splitting undoes joining when no piece contains the separator. */
  lemma {:induction false} SplitJoin(parts: seq<string>, sep: char)
    requires |parts| >= 1
    requires forall i :: 0 <= i < |parts| ==> sep !in parts[i]
    ensures Split(Join(parts, sep), sep) == parts
    decreases |parts|
  {
    if |parts| == 1 {
      SplitPiece(parts[0], "", sep);
      assert parts[0] + "" == parts[0];
    } else {
      var rest := Join(parts[1..], sep);
      SplitJoin(parts[1..], sep);
      assert Join(parts, sep) == parts[0] + ([sep] + rest);
      SplitPiece(parts[0], [sep] + rest, sep);
      assert ([sep] + rest)[1..] == rest;
      assert Split([sep] + rest, sep) == [""] + Split(rest, sep);
      assert parts[0] + "" == parts[0];
      assert parts == [parts[0]] + parts[1..];
    }
  }

  /** Every character of a join is the separator or a character of a piece. */
  lemma {:induction false} JoinChars(parts: seq<string>, sep: char, c: char)
    requires c in Join(parts, sep)
    ensures c == sep || exists i :: 0 <= i < |parts| && c in parts[i]
    decreases |parts|
  {
    if |parts| > 1 {
      if c !in parts[0] && c != sep {
        JoinChars(parts[1..], sep, c);
        var i :| 0 <= i < |parts| - 1 && c in parts[1..][i];
        assert c in parts[i + 1];
      }
    }
  }

  /** A string in double quotes, as `"\"{ip}\""` writes it. */
  function Quote(s: string): (q: string)
    ensures |q| == |s| + 2 && q[0] == '"' && q[|q| - 1] == '"' && q[1..|q| - 1] == s
  {
    "\"" + s + "\""
  }

  /** The inside of a double-quoted string, or None if `q` is not one. */
  function Unquote(q: string): (r: Option<string>)
    ensures r.Some? <==> |q| >= 2 && q[0] == '"' && q[|q| - 1] == '"'
  {
    if |q| >= 2 && q[0] == '"' && q[|q| - 1] == '"' then Some(q[1..|q| - 1]) else None
  }

  lemma UnquoteQuote(s: string)
    ensures Unquote(Quote(s)) == Some(s)
  {
  }
}
