/** Small vocabulary shared by the other modules: options, results, repeated addition, decimal digits, splitting and joining text. */
module Prelude {

  datatype Option<+T> = None | Some(value: T)

  datatype Result<+T, +E> = Ok(value: T) | Err(error: E)

  /** No value occurs twice. */
  ghost predicate Distinct<T>(s: seq<T>) {
    forall i, j :: 0 <= i < j < |s| ==> s[i] != s[j]
  }

  /** The values of `s`, without order or multiplicity. */
  ghost function Elems<T>(s: seq<T>): set<T> {
    set x | x in s
  }

  function Min(a: int, b: int): int {
    if a < b then a else b
  }

  function Max(a: int, b: int): int {
    if a < b then b else a
  }

  /** Rust's `saturating_sub` on unsigned integers. */
  function SatSub(a: nat, b: nat): nat {
    if a < b then 0 else a - b
  }

  /** Rust's `clamp`. */
  function Clamp(v: int, lo: int, hi: int): int
    requires lo <= hi
  {
    if v < lo then lo else if v > hi then hi else v
  }

  /** q added up k times; products of variables are kept out of the inductions. */
  function Times(q: int, k: nat): int {
    if k == 0 then 0 else q + Times(q, k - 1)
  }

  lemma {:induction false} TimesIs(q: int, k: nat)
    ensures Times(q, k) == q * k
  {
    if k > 0 {
      TimesIs(q, k - 1);
      assert q * k == q + q * (k - 1);
    }
  }

  lemma {:induction false} CountDistinct<T>(s: seq<T>)
    requires Distinct(s)
    ensures |Elems(s)| == |s|
  {
    if s != [] {
      var n := |s| - 1;
      assert s == s[..n] + [s[n]];
      CountDistinct(s[..n]);
      assert Elems(s) == Elems(s[..n]) + {s[n]};
    }
  }

  // ----- decimal numbers -----

  /** A decimal digit, by its ASCII code. */
  predicate IsDigit(code: nat) { 0x30 <= code <= 0x39 }

  /** Decimal value of `s` continued from `acc`, unless a code is no digit or 32 bits overflow. */
  function Decimal(s: seq<nat>, acc: nat): Option<nat> {
    if s == [] then Some(acc)
    else if !IsDigit(s[0]) then None
    else
      var next := acc * 10 + (s[0] - 0x30);
      if next > 0xFFFF_FFFF then None else Decimal(s[1..], next)
  }

  function CodesOf(s: string): seq<nat> {
    if s == [] then [] else [s[0] as nat] + CodesOf(s[1..])
  }

  // ----- splitting and joining -----

  /** The pieces of `s` between occurrences of `sep`; there is always at least one piece. */
  function SplitOn<T(==)>(s: seq<T>, sep: T): (parts: seq<seq<T>>)
    ensures |parts| >= 1
  {
    if s == [] then [[]]
    else
      var rest := SplitOn(s[1..], sep);
      if s[0] == sep then [[]] + rest else [[s[0]] + rest[0]] + rest[1..]
  }

  function CountOf<T(==)>(s: seq<T>, x: T): nat {
    if s == [] then 0 else (if s[0] == x then 1 else 0) + CountOf(s[1..], x)
  }

  /** Concatenates the pieces again, with `sep` between neighbours. */
  function JoinWith<T>(parts: seq<seq<T>>, sep: T): seq<T>
    requires |parts| >= 1
  {
    if |parts| == 1 then parts[0] else parts[0] + [sep] + JoinWith(parts[1..], sep)
  }

  /** Splitting loses nothing, makes one piece more than there are separators, and leaves none inside a piece. */
  lemma {:induction false} SplitOnSound<T>(s: seq<T>, sep: T)
    ensures JoinWith(SplitOn(s, sep), sep) == s
    ensures |SplitOn(s, sep)| == CountOf(s, sep) + 1
    ensures forall i :: 0 <= i < |SplitOn(s, sep)| ==> sep !in SplitOn(s, sep)[i]
  {
    if s != [] {
      SplitOnSound(s[1..], sep);
      var rest := SplitOn(s[1..], sep);
      var parts := SplitOn(s, sep);
      if s[0] == sep {
        assert parts[1..] == rest;
        assert JoinWith(parts, sep) == [] + [sep] + s[1..];
      } else {
        assert parts[1..] == rest[1..];
        assert JoinWith(parts, sep) == [s[0]] + JoinWith(rest, sep);
      }
    }
  }

  /** And joining loses nothing either, when no piece contains the separator. */
  lemma {:induction false} JoinThenSplit<T>(parts: seq<seq<T>>, sep: T)
    requires |parts| >= 1 && forall i :: 0 <= i < |parts| ==> sep !in parts[i]
    ensures SplitOn(JoinWith(parts, sep), sep) == parts
  {
    if |parts| == 1 {
      SplitNone(parts[0], sep);
    } else {
      JoinThenSplit(parts[1..], sep);
      SplitFirst(parts[0], sep, JoinWith(parts[1..], sep));
      assert [parts[0]] + parts[1..] == parts;
    }
  }

  lemma {:induction false} SplitNone<T>(s: seq<T>, sep: T)
    requires sep !in s
    ensures SplitOn(s, sep) == [s]
  {
    if s != [] {
      SplitNone(s[1..], sep);
      assert [s[0]] + s[1..] == s;
    }
  }

  lemma {:induction false} SplitFirst<T>(s: seq<T>, sep: T, rest: seq<T>)
    requires sep !in s
    ensures SplitOn(s + [sep] + rest, sep) == [s] + SplitOn(rest, sep)
  {
    var whole := s + [sep] + rest;
    if s == [] {
      assert whole[1..] == rest;
    } else {
      SplitFirst(s[1..], sep, rest);
      assert whole[1..] == s[1..] + [sep] + rest;
      assert [s[0]] + s[1..] == s;
    }
  }

  lemma Assoc<T>(a: seq<T>, b: seq<T>, c: seq<T>)
    ensures (a + b) + c == a + (b + c)
    ensures a + [] == a && [] + c == c
  {
  }

  lemma Regroup<T>(a: seq<T>, b: seq<T>, c: seq<T>, d: seq<T>)
    ensures ((a + b) + c) + d == a + (b + (c + d))
  {
  }

  // ----- trimming -----

  /** Unicode White_Space, the characters `str::trim` removes. */
  predicate IsWhite(c: char) {
    var n := c as int;
    || 9 <= n <= 13 || n == 0x20 || n == 0x85 || n == 0xA0 || n == 0x1680 || 0x2000 <= n <= 0x200A
    || n == 0x2028 || n == 0x2029 || n == 0x202F || n == 0x205F || n == 0x3000
  }

  /** The code points that Unicode gives the property White_Space. */
  const WHITE_SPACE: set<int> := {
    0x09, 0x0A, 0x0B, 0x0C, 0x0D, 0x20, 0x85, 0xA0, 0x1680, 0x2000, 0x2001, 0x2002, 0x2003, 0x2004, 0x2005, 0x2006,
    0x2007, 0x2008, 0x2009, 0x200A, 0x2028, 0x2029, 0x202F, 0x205F, 0x3000
  }

  lemma WhiteIsWhiteSpace(c: char)
    ensures IsWhite(c) <==> c as int in WHITE_SPACE
  {
  }

  function TrimStart(s: string): string {
    if s != [] && IsWhite(s[0]) then TrimStart(s[1..]) else s
  }

  function TrimEnd(s: string): string {
    if s != [] && IsWhite(s[|s| - 1]) then TrimEnd(s[..|s| - 1]) else s
  }

  function Trim(s: string): string { TrimEnd(TrimStart(s)) }

  ghost predicate AllWhite(s: string) { forall i :: 0 <= i < |s| ==> IsWhite(s[i]) }

  /** White space neither at the beginning nor at the end. */
  predicate TrimmedAlready(s: string) { s != "" ==> !IsWhite(s[0]) && !IsWhite(s[|s| - 1]) }

  lemma {:induction false} TrimStartAt(white: string, s: string)
    requires AllWhite(white) && (s != "" ==> !IsWhite(s[0]))
    ensures TrimStart(white + s) == s
  {
    if white == "" {
      assert white + s == s;
    } else {
      assert (white + s)[1..] == white[1..] + s;
      TrimStartAt(white[1..], s);
    }
  }

  lemma {:induction false} TrimEndAt(s: string, white: string)
    requires AllWhite(white) && (s != "" ==> !IsWhite(s[|s| - 1]))
    ensures TrimEnd(s + white) == s
  {
    if white == "" {
      assert s + white == s;
    } else {
      var n := |white| - 1;
      assert (s + white)[..|s| + n] == s + white[..n];
      TrimEndAt(s, white[..n]);
    }
  }

  /** Trimming takes off the white space around, and nothing else. */
  lemma TrimsTo(before: string, s: string, after: string)
    requires TrimmedAlready(s) && AllWhite(before) && AllWhite(after)
    ensures Trim(before + s + after) == s
  {
    if s == "" {
      var white := before + after;
      assert before + s + after == white == white + "" == "" + white;
      TrimStartAt(white, "");
      assert TrimEnd("") == "";
    } else {
      assert before + s + after == before + (s + after);
      TrimStartAt(before, s + after);
      TrimEndAt(s, after);
    }
  }

  lemma {:induction false} TrimStartSplits(s: string) returns (white: string)
    ensures s == white + TrimStart(s) && AllWhite(white)
    ensures TrimStart(s) != "" ==> !IsWhite(TrimStart(s)[0])
  {
    white := "";
    if s != "" && IsWhite(s[0]) {
      var rest := TrimStartSplits(s[1..]);
      white := [s[0]] + rest;
    }
  }

  lemma {:induction false} TrimEndSplits(s: string) returns (white: string)
    ensures s == TrimEnd(s) + white && AllWhite(white)
    ensures TrimEnd(s) != "" ==> TrimEnd(s)[0] == s[0] && !IsWhite(TrimEnd(s)[|TrimEnd(s)| - 1])
  {
    white := "";
    if s != "" && IsWhite(s[|s| - 1]) {
      var n := |s| - 1;
      var rest := TrimEndSplits(s[..n]);
      white := rest + [s[n]];
    }
  }

  lemma TrimSplits(s: string) returns (before: string, after: string)
    ensures s == before + Trim(s) + after && AllWhite(before) && AllWhite(after) && TrimmedAlready(Trim(s))
  {
    before := TrimStartSplits(s);
    after := TrimEndSplits(TrimStart(s));
    assert before + (Trim(s) + after) == before + Trim(s) + after;
  }
}
