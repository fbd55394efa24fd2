/**
 * The pure part of `load_wordlist` (src/main.rs:101-116): every line of the
 * wordlist is trimmed of surrounding whitespace, lines that become empty are
 * dropped, and the rest are kept in file order. Opening the file and
 * splitting it into lines are not modelled; the lines arrive as a sequence
 * of strings.
 */
module Wordlist {

  /** Rust's `char::is_whitespace`: the Unicode White_Space property. */
  predicate IsWhitespace(c: char) {
    var n := c as int;
    (0x09 <= n <= 0x0D) || n == 0x20 || n == 0x85 || n == 0xA0 || n == 0x1680 ||
    (0x2000 <= n <= 0x200A) || n == 0x2028 || n == 0x2029 || n == 0x202F ||
    n == 0x205F || n == 0x3000
  }

  predicate AllWhitespace(s: string) {
    forall i :: 0 <= i < |s| ==> IsWhitespace(s[i])
  }

  /** `str::trim_start`: drop leading whitespace. */
  function TrimStart(s: string): string {
    if s != [] && IsWhitespace(s[0]) then TrimStart(s[1..]) else s
  }

  /** `str::trim_end`: drop trailing whitespace. */
  function TrimEnd(s: string): string {
    if s != [] && IsWhitespace(s[|s| - 1]) then TrimEnd(s[..|s| - 1]) else s
  }

  /** `str::trim`, as applied to each line at src/main.rs:109. */
  function Trim(s: string): string {
    TrimEnd(TrimStart(s))
  }

  /** `TrimStart` leaves a suffix, and what it cut off is whitespace. */
  lemma {:induction false} TrimStartSpec(s: string)
    ensures |TrimStart(s)| <= |s| && TrimStart(s) == s[|s| - |TrimStart(s)|..]
    ensures AllWhitespace(s[..|s| - |TrimStart(s)|])
    ensures TrimStart(s) != [] ==> !IsWhitespace(TrimStart(s)[0])
  {
    if s != [] && IsWhitespace(s[0]) {
      TrimStartSpec(s[1..]);
      var k := |s| - |TrimStart(s)|;
      assert forall i :: 1 <= i < k ==> s[..k][i] == s[1..][..k - 1][i - 1];
    }
  }

  /** `TrimEnd` leaves a prefix, and what it cut off is whitespace. */
  lemma {:induction false} TrimEndSpec(s: string)
    ensures |TrimEnd(s)| <= |s| && TrimEnd(s) == s[..|TrimEnd(s)|]
    ensures AllWhitespace(s[|TrimEnd(s)|..])
    ensures TrimEnd(s) != [] ==> !IsWhitespace(TrimEnd(s)[|TrimEnd(s)| - 1])
  {
    if s != [] && IsWhitespace(s[|s| - 1]) {
      var p := s[..|s| - 1];
      TrimEndSpec(p);
      var k := |TrimEnd(s)|;
      assert forall i :: k <= i < |s| - 1 ==> s[i] == p[k..][i - k];
    }
  }

  /**
   * The trimmed line is a contiguous piece `s[k..k + |Trim(s)|]` of the line,
   * everything cut off on either side is whitespace, the result neither starts
   * nor ends with whitespace, and it is empty exactly when the line is blank.
   */
  lemma TrimSpec(s: string) returns (k: nat)
    ensures k + |Trim(s)| <= |s| && Trim(s) == s[k..k + |Trim(s)|]
    ensures AllWhitespace(s[..k]) && AllWhitespace(s[k + |Trim(s)|..])
    ensures Trim(s) != [] ==> !IsWhitespace(Trim(s)[0]) && !IsWhitespace(Trim(s)[|Trim(s)| - 1])
    ensures Trim(s) == [] <==> AllWhitespace(s)
  {
    var t := TrimStart(s);
    TrimStartSpec(s);
    TrimEndSpec(t);
    k := |s| - |t|;
    var r := TrimEnd(t);
    assert s[k + |r|..] == t[|r|..];
    if r != [] {
      assert r[0] == t[0];
    }
    if t == [] {
      assert s == s[..k];
    }
  }

  lemma TrimStartUnchanged(s: string)
    requires s != [] ==> !IsWhitespace(s[0])
    ensures TrimStart(s) == s
  {
  }

  lemma TrimEndUnchanged(s: string)
    requires s != [] ==> !IsWhitespace(s[|s| - 1])
    ensures TrimEnd(s) == s
  {
  }

  /** Trimming an already trimmed string changes nothing. */
  lemma TrimIdempotent(s: string)
    ensures Trim(Trim(s)) == Trim(s)
  {
    var r := Trim(s);
    var _ := TrimSpec(s);
    TrimStartUnchanged(r);
    TrimEndUnchanged(r);
  }

  /** What one line contributes to the wordlist: its trim, unless that is empty. */
  function Kept(line: string): seq<string> {
    var t := Trim(line);
    if t == [] then [] else [t]
  }

  /** The wordlist's candidates: the non-empty trims of the lines, in order. */
  function FilterLines(lines: seq<string>): (r: seq<string>)
    ensures |r| <= |lines|
  {
    if lines == [] then [] else FilterLines(lines[..|lines| - 1]) + Kept(lines[|lines| - 1])
  }

  lemma FilterLinesSnoc(lines: seq<string>, line: string)
    ensures FilterLines(lines + [line]) == FilterLines(lines) + Kept(line)
  {
  }

  /** Every candidate is non-empty and is its own trim. */
  lemma {:induction false} FilterLinesTrimmed(lines: seq<string>)
    ensures forall k :: 0 <= k < |FilterLines(lines)| ==>
              FilterLines(lines)[k] != [] && Trim(FilterLines(lines)[k]) == FilterLines(lines)[k]
  {
    if lines != [] {
      var n := |lines| - 1;
      FilterLinesTrimmed(lines[..n]);
      TrimIdempotent(lines[n]);
      var r, p := FilterLines(lines), FilterLines(lines[..n]);
      forall k | 0 <= k < |r| ensures r[k] != [] && Trim(r[k]) == r[k] {
        if k >= |p| {
          assert r[k] == Trim(lines[n]);
        }
      }
    }
  }

  /** The positions of the lines that survive filtering, in increasing order. */
  function KeptIndices(lines: seq<string>): (r: seq<nat>)
    ensures forall k :: 0 <= k < |r| ==> r[k] < |lines|
    ensures forall k, l :: 0 <= k < l < |r| ==> r[k] < r[l]
    ensures forall i :: 0 <= i < |lines| ==> (i in r <==> Trim(lines[i]) != [])
  {
    if lines == [] then []
    else
      var n := |lines| - 1;
      var prefix := lines[..n];
      assert forall i :: 0 <= i < n ==> prefix[i] == lines[i];
      KeptIndices(prefix) + (if Trim(lines[n]) == [] then [] else [n])
  }

  /**
   * The k-th candidate is the trim of the line at the k-th kept position: the
   * surviving lines keep their relative order and none is used twice.
   */
  lemma {:induction false} FilterLinesKept(lines: seq<string>)
    ensures |FilterLines(lines)| == |KeptIndices(lines)|
    ensures forall k :: 0 <= k < |FilterLines(lines)| ==>
              FilterLines(lines)[k] == Trim(lines[KeptIndices(lines)[k]])
  {
    if lines != [] {
      var n := |lines| - 1;
      var prefix := lines[..n];
      FilterLinesKept(prefix);
      var r, p, ks := FilterLines(lines), FilterLines(prefix), KeptIndices(lines);
      assert forall i :: 0 <= i < n ==> prefix[i] == lines[i];
      forall k | 0 <= k < |r| ensures r[k] == Trim(lines[ks[k]]) {
        if k >= |p| {
          assert ks[k] == n;
        }
      }
    }
  }

  /** Filtering a concatenation filters each part on its own. */
  lemma {:induction false} FilterLinesAppend(a: seq<string>, b: seq<string>)
    ensures FilterLines(a + b) == FilterLines(a) + FilterLines(b)
  {
    if b == [] {
      assert a + b == a;
    } else {
      var n := |b| - 1;
      assert a + b == (a + b[..n]) + [b[n]];
      assert b == b[..n] + [b[n]];
      FilterLinesAppend(a, b[..n]);
      FilterLinesSnoc(a + b[..n], b[n]);
      FilterLinesSnoc(b[..n], b[n]);
    }
  }

  /** A blank or whitespace-only line contributes no candidate. */
  lemma BlankLineDropped(a: seq<string>, blank: string, b: seq<string>)
    requires AllWhitespace(blank)
    ensures FilterLines(a + [blank] + b) == FilterLines(a + b)
  {
    var _ := TrimSpec(blank);
    FilterLinesSnoc(a, blank);
    FilterLinesAppend(a + [blank], b);
    FilterLinesAppend(a, b);
  }

  /** Filtering the filtered wordlist gives it back. */
  lemma {:induction false} FilterLinesIdempotent(lines: seq<string>)
    ensures FilterLines(FilterLines(lines)) == FilterLines(lines)
  {
    if lines != [] {
      var n := |lines| - 1;
      var rest := FilterLines(lines[..n]);
      FilterLinesIdempotent(lines[..n]);
      if Trim(lines[n]) != [] {
        var t := Trim(lines[n]);
        TrimIdempotent(lines[n]);
        FilterLinesSnoc(rest, t);
      } else {
        assert rest + [] == rest;
      }
    }
  }

  /** The loop of `load_wordlist`: push the trim of each non-blank line. */
  method LoadWordlist(lines: seq<string>) returns (entries: seq<string>)
    ensures entries == FilterLines(lines)
  {
    entries := [];
    var i := 0;
    assert lines[..|lines|] == lines;
    while i < |lines|
      invariant 0 <= i <= |lines|
      invariant entries == FilterLines(lines[..i])
    {
      assert lines[..i + 1] == lines[..i] + [lines[i]];
      FilterLinesSnoc(lines[..i], lines[i]);
      var trimmed := Trim(lines[i]);
      if trimmed != [] {
        entries := entries + [trimmed];
      }
      i := i + 1;
    }
  }
}
