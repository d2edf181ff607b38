/**
 * The string handling the server's boundary needs: C# decimal formatting of
 * integers, `String.Split` on one separator character (with and without
 * `RemoveEmptyEntries`), and newline-terminated records built with a
 * `StringBuilder`. Each producer has a decoder partner here, so that the
 * serialisers' output can be shown to be readable by a caller.
 */
module Text {
  import opened Wrappers

  predicate IsDigit(c: char) {
    '0' <= c <= '9'
  }

  predicate AllDigits(s: string) {
    forall i :: 0 <= i < |s| ==> IsDigit(s[i])
  }

  function DigitValue(c: char): (d: nat)
    requires IsDigit(c)
    ensures d < 10
  {
    c as int - '0' as int
  }

  function DigitChar(d: nat): (c: char)
    requires d < 10
    ensures IsDigit(c) && DigitValue(c) == d
  {
    ('0' as int + d) as char
  }

  /** Decimal digits of `n`, most significant first. */
  function NatToString(n: nat): (s: string)
    ensures |s| >= 1
    ensures AllDigits(s)
    decreases n
  {
    if n < 10 then [DigitChar(n)] else NatToString(n / 10) + [DigitChar(n % 10)]
  }

  /** The number a non-empty run of decimal digits denotes. */
  function DigitsValue(s: string): nat
    requires AllDigits(s)
    decreases |s|
  {
    if s == [] then 0 else 10 * DigitsValue(s[..|s| - 1]) + DigitValue(s[|s| - 1])
  }

  /** An `int` as C# interpolation writes it: a minus sign for negatives, then decimal digits. */
  function IntToString(x: int): (s: string)
    ensures |s| >= 1
    ensures forall i :: 0 <= i < |s| ==> s[i] == '-' || IsDigit(s[i])
    ensures (x < 0) == (s[0] == '-')
  {
    if x < 0 then "-" + NatToString(-x) else NatToString(x)
  }

  /** The caller's reading of a decimal field: the inverse of `IntToString`. */
  function ParseInt(s: string): Option<int> {
    if |s| >= 2 && s[0] == '-' && AllDigits(s[1..]) then Some(-(DigitsValue(s[1..]) as int))
    else if |s| >= 1 && AllDigits(s) then Some(DigitsValue(s))
    else None
  }

  lemma {:induction false} NatToStringValue(n: nat)
    ensures DigitsValue(NatToString(n)) == n
    decreases n
  {
    if n >= 10 {
      var s := NatToString(n);
      assert s[..|s| - 1] == NatToString(n / 10);
      NatToStringValue(n / 10);
    }
  }

  /** Every integer the server formats reads back as the same integer. */
  lemma IntToStringRoundTrip(x: int)
    ensures ParseInt(IntToString(x)) == Some(x)
  {
    if x < 0 {
      assert IntToString(x)[1..] == NatToString(-x);
      NatToStringValue(-x);
    } else {
      NatToStringValue(x);
    }
  }

  /** A formatted integer never contains a field or record separator. */
  lemma IntToStringHasNoSeparators(x: int)
    ensures ',' !in IntToString(x) && ':' !in IntToString(x) && '\n' !in IntToString(x)
  {
    var s := IntToString(x);
    assert forall i :: 0 <= i < |s| ==> s[i] != ',' && s[i] != ':' && s[i] != '\n';
  }

  /** The concatenation of all parts, in order. */
  function Concat(parts: seq<string>): string {
    if parts == [] then "" else parts[0] + Concat(parts[1..])
  }

  /** `s` with every occurrence of `c` deleted. */
  function Remove(s: string, c: char): (r: string)
    ensures c !in r
    ensures |r| <= |s|
  {
    if s == [] then "" else (if s[0] == c then "" else [s[0]]) + Remove(s[1..], c)
  }

  /** `String.Join(sep, parts)`. */
  function Join(parts: seq<string>, sep: char): string {
    if parts == [] then ""
    else if |parts| == 1 then parts[0]
    else parts[0] + [sep] + Join(parts[1..], sep)
  }

  predicate NoneContains(parts: seq<string>, c: char) {
    forall i :: 0 <= i < |parts| ==> c !in parts[i]
  }

  /**
   * `s.Split(sep)`: the segments between occurrences of `sep`, empty ones
   * included, so there is always one more segment than separators.
   */
  function SplitAll(s: string, sep: char): (parts: seq<string>)
    ensures |parts| >= 1
    ensures NoneContains(parts, sep)
    decreases |s|
  {
    if s == [] then [""]
    else
      var rest := SplitAll(s[1..], sep);
      if s[0] == sep then [""] + rest
      else
        var parts := [[s[0]] + rest[0]] + rest[1..];
        assert parts[1..] == rest[1..];
        parts
  }

  /** Splitting loses nothing but the separators: the segments concatenated are the input without them. */
  lemma {:induction false} SplitAllConcat(s: string, sep: char)
    ensures Concat(SplitAll(s, sep)) == Remove(s, sep)
    decreases |s|
  {
    if s != [] {
      SplitAllConcat(s[1..], sep);
      var rest := SplitAll(s[1..], sep);
      if s[0] == sep {
        assert ([""] + rest)[1..] == rest;
      } else {
        var parts := [[s[0]] + rest[0]] + rest[1..];
        assert parts[1..] == rest[1..];
        assert Concat(rest) == rest[0] + Concat(rest[1..]);
      }
    }
  }

  /** Keeps the non-empty strings, in order. */
  function NonEmpty(parts: seq<string>): (r: seq<string>)
    ensures forall i :: 0 <= i < |r| ==> r[i] != ""
    ensures Concat(r) == Concat(parts)
    ensures NoneContains(parts, '\n') ==> NoneContains(r, '\n')
  {
    if parts == [] then []
    else if parts[0] == "" then NonEmpty(parts[1..])
    else
      var r := [parts[0]] + NonEmpty(parts[1..]);
      assert r[1..] == NonEmpty(parts[1..]);
      r
  }

  /** `s.Split(sep, StringSplitOptions.RemoveEmptyEntries)`. */
  function SplitNonEmpty(s: string, sep: char): (tokens: seq<string>)
    ensures forall i :: 0 <= i < |tokens| ==> tokens[i] != "" && sep !in tokens[i]
    ensures Concat(tokens) == Remove(s, sep)
  {
    var all := SplitAll(s, sep);
    var r := NonEmpty(all);
    NonEmptyKeepsAbsence(all, sep);
    SplitAllConcat(s, sep);
    r
  }

  lemma {:induction false} NonEmptyKeepsAbsence(parts: seq<string>, c: char)
    requires NoneContains(parts, c)
    ensures NoneContains(NonEmpty(parts), c)
    decreases |parts|
  {
    if parts != [] {
      NonEmptyKeepsAbsence(parts[1..], c);
    }
  }

  /** Splitting on a separator that `head` lacks peels `head` off as the first segment. */
  lemma {:induction false} SplitAllPeel(head: string, tail: string, sep: char)
    requires sep !in head
    ensures SplitAll(head + [sep] + tail, sep) == [head] + SplitAll(tail, sep)
    decreases |head|
  {
    if head == [] {
      assert head + [sep] + tail == [sep] + tail;
      assert ([sep] + tail)[1..] == tail;
    } else {
      var s := head + [sep] + tail;
      assert s[0] == head[0];
      assert s[1..] == head[1..] + [sep] + tail;
      SplitAllPeel(head[1..], tail, sep);
      assert [head[0]] + head[1..] == head;
    }
  }

  /** `Split` undoes `Join` when no part contains the separator. */
  lemma {:induction false} SplitJoin(parts: seq<string>, sep: char)
    requires |parts| >= 1
    requires NoneContains(parts, sep)
    ensures SplitAll(Join(parts, sep), sep) == parts
    decreases |parts|
  {
    if |parts| == 1 {
      SplitAllNoSeparator(parts[0], sep);
    } else {
      SplitJoin(parts[1..], sep);
      SplitAllPeel(parts[0], Join(parts[1..], sep), sep);
      assert [parts[0]] + parts[1..] == parts;
    }
  }

  lemma {:induction false} SplitAllNoSeparator(s: string, sep: char)
    requires sep !in s
    ensures SplitAll(s, sep) == [s]
    decreases |s|
  {
    if s != [] {
      SplitAllNoSeparator(s[1..], sep);
      assert [s[0]] + s[1..] == s;
    }
  }

  /** `Join` undoes `Split`: splitting loses nothing but the separators. */
  lemma {:induction false} JoinSplit(s: string, sep: char)
    ensures Join(SplitAll(s, sep), sep) == s
    decreases |s|
  {
    if s != [] {
      JoinSplit(s[1..], sep);
      var rest := SplitAll(s[1..], sep);
      if s[0] == sep {
        assert ([""] + rest)[1..] == rest;
        assert s == [sep] + s[1..];
      } else {
        var parts := [[s[0]] + rest[0]] + rest[1..];
        assert parts[1..] == rest[1..];
        if |rest| == 1 {
          assert s == [s[0]] + s[1..];
        } else {
          assert Join(rest, sep) == rest[0] + [sep] + Join(rest[1..], sep);
          assert s == [s[0]] + s[1..];
        }
      }
    }
  }

  /**
   * `RemoveEmptyEntries` splitting of a join of separator-free parts yields
   * exactly the non-empty parts, in order: empty parts (from leading,
   * trailing or repeated separators) are dropped and nothing is merged or
   * cut. Since every string is the join of its own segments (`JoinSplit`),
   * this fixes the tokens of every input.
   */
  lemma SplitNonEmptyJoin(parts: seq<string>, sep: char)
    requires NoneContains(parts, sep)
    ensures SplitNonEmpty(Join(parts, sep), sep) == NonEmpty(parts)
  {
    if parts == [] {
      assert SplitAll("", sep) == [""];
      assert NonEmpty([""]) == NonEmpty([""][1..]);
    } else {
      SplitJoin(parts, sep);
    }
  }

  /** The tokens of any string are the non-empty segments between its separators. */
  lemma SplitNonEmptyOfAnyInput(s: string, sep: char)
    ensures SplitNonEmpty(s, sep) == NonEmpty(SplitAll(s, sep))
    ensures Join(SplitAll(s, sep), sep) == s
  {
    JoinSplit(s, sep);
  }

  lemma {:induction false} NonEmptyOfNonEmpty(parts: seq<string>)
    requires forall i :: 0 <= i < |parts| ==> parts[i] != ""
    ensures NonEmpty(parts) == parts
    decreases |parts|
  {
    if parts != [] {
      NonEmptyOfNonEmpty(parts[1..]);
      assert [parts[0]] + parts[1..] == parts;
    }
  }

  /** Each record followed by a newline, all concatenated: a `StringBuilder` of `Append(...\n)` calls. */
  function Terminated(records: seq<string>): (s: string)
    ensures s == "" <==> records == []
  {
    if records == [] then "" else records[0] + "\n" + Terminated(records[1..])
  }

  /**
   * A caller splitting newline-terminated output on newlines gets the records
   * back, followed by the empty segment after the last newline, provided no
   * record contains a newline of its own.
   */
  lemma {:induction false} SplitTerminated(records: seq<string>)
    requires NoneContains(records, '\n')
    ensures SplitAll(Terminated(records), '\n') == records + [""]
    decreases |records|
  {
    if records != [] {
      SplitTerminated(records[1..]);
      assert records[0] + "\n" + Terminated(records[1..]) == records[0] + ['\n'] + Terminated(records[1..]);
      SplitAllPeel(records[0], Terminated(records[1..]), '\n');
      assert [records[0]] + (records[1..] + [""]) == records + [""];
    }
  }

  /** Splits at the first occurrence of `sep`; `None` when `sep` does not occur. */
  function SplitFirst(s: string, sep: char): (r: Option<(string, string)>)
    ensures r.Some? ==> sep !in r.value.0 && r.value.0 + [sep] + r.value.1 == s
    ensures r.None? <==> sep !in s
    decreases |s|
  {
    if s == [] then None
    else if s[0] == sep then Some(("", s[1..]))
    else match SplitFirst(s[1..], sep)
      case None => None
      case Some((a, b)) => Some(([s[0]] + a, b))
  }

  lemma SplitFirstOf(head: string, tail: string, sep: char)
    requires sep !in head
    ensures SplitFirst(head + [sep] + tail, sep) == Some((head, tail))
  {
    var r := SplitFirst(head + [sep] + tail, sep);
    SplitFirstUnique(head, tail, r.value.0, r.value.1, sep);
  }

  lemma {:induction false} SplitFirstUnique(a: string, b: string, c: string, d: string, sep: char)
    requires sep !in a && sep !in c
    requires a + [sep] + b == c + [sep] + d
    ensures a == c && b == d
    decreases |a|
  {
    if a == [] && c == [] {
      assert b == (a + [sep] + b)[1..];
      assert d == (c + [sep] + d)[1..];
    } else if a == [] || c == [] {
      HeadOf(a, sep, b);
      HeadOf(c, sep, d);
      assert false;
    } else {
      assert a[0] == (a + [sep] + b)[0] == (c + [sep] + d)[0] == c[0];
      assert (a + [sep] + b)[1..] == a[1..] + [sep] + b;
      assert (c + [sep] + d)[1..] == c[1..] + [sep] + d;
      SplitFirstUnique(a[1..], b, c[1..], d, sep);
      assert a == [a[0]] + a[1..];
      assert c == [c[0]] + c[1..];
    }
  }

  lemma HeadOf(a: string, sep: char, b: string)
    ensures (a + [sep] + b)[0] == if a == [] then sep else a[0]
  {
  }

  /** A character none of the parts holds, other than the separator, is absent from their join. */
  lemma {:induction false} JoinLacks(parts: seq<string>, sep: char, c: char)
    requires c != sep
    requires NoneContains(parts, c)
    ensures c !in Join(parts, sep)
    decreases |parts|
  {
    if |parts| > 1 {
      JoinLacks(parts[1..], sep, c);
    }
  }

  /** Splitting two pieces joined by a separator splits each piece on its own. */
  lemma SplitAllAppend(a: string, b: string, sep: char)
    ensures SplitAll(a + [sep] + b, sep) == SplitAll(a, sep) + SplitAll(b, sep)
  {
    var pa, pb := SplitAll(a, sep), SplitAll(b, sep);
    JoinSplit(a, sep);
    JoinSplit(b, sep);
    JoinAppend(pa, pb, sep);
    assert NoneContains(pa + pb, sep) by {
      forall i | 0 <= i < |pa + pb| ensures sep !in (pa + pb)[i] {
        if i >= |pa| { assert (pa + pb)[i] == pb[i - |pa|]; }
      }
    }
    SplitJoin(pa + pb, sep);
  }

  /** Joining two non-empty lists puts one separator between their joins. */
  lemma {:induction false} JoinAppend(p: seq<string>, q: seq<string>, sep: char)
    requires |p| >= 1 && |q| >= 1
    ensures Join(p + q, sep) == Join(p, sep) + [sep] + Join(q, sep)
    decreases |p|
  {
    assert (p + q)[0] == p[0];
    assert (p + q)[1..] == p[1..] + q;
    if |p| > 1 {
      JoinAppend(p[1..], q, sep);
    }
  }
}
