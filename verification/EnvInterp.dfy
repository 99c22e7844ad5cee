/** Variable expansion in configuration strings, and whether the outcome depends on anything outside them. */
module EnvInterp {
  import opened Prelude

  // ----- templates -----

  /** One piece of a template. */
  datatype Segment =
    | Char(c: char)           // stands for itself
    | Escaped                 // $$
    | Dollar                  // $ before anything that starts no reference
    | Plain(name: string)     // $NAME
    | Braced(inner: string)   // ${...}
    | Unterminated(rest: string)  // ${ without a closing brace

  predicate IsAlpha(c: char) { 'a' <= c <= 'z' || 'A' <= c <= 'Z' || c == '_' }

  predicate IsAlnum(c: char) { IsAlpha(c) || '0' <= c <= '9' }

  /** Where the run of letters, digits and underscores from `i` on ends. */
  function AlnumEnd(s: string, i: nat): (n: nat)
    requires i <= |s|
    ensures i <= n <= |s|
    decreases |s| - i
  {
    if i == |s| || !IsAlnum(s[i]) then i else AlnumEnd(s, i + 1)
  }

  /** Where the identifier at `i` ends; at `i` when there is none. */
  function IdentEnd(s: string, i: nat): (n: nat)
    requires i <= |s|
    ensures i <= n <= |s|
  {
    if i == |s| || !IsAlpha(s[i]) then i else AlnumEnd(s, i)
  }

  /** The first position of `c` from `i` on, or the length. */
  function Find(s: string, c: char, i: nat): (n: nat)
    requires i <= |s|
    ensures i <= n <= |s| && (n < |s| ==> s[n] == c)
    decreases |s| - i
  {
    if i == |s| || s[i] == c then i else Find(s, c, i + 1)
  }

  /** The piece that starts at `i`. */
  function PieceAt(t: string, i: nat): Segment
    requires i < |t|
  {
    if t[i] != '$' then Char(t[i])
    else if i + 1 == |t| then Dollar
    else if t[i + 1] == '$' then Escaped
    else if t[i + 1] == '{' then
      var n := Find(t, '}', i + 2);
      if n == |t| then Unterminated(t[i + 2..]) else Braced(t[i + 2..n])
    else
      var n := IdentEnd(t, i + 1);
      if n > i + 1 then Plain(t[i + 1..n]) else Dollar
  }

  /** The template text of a piece. */
  function Source(s: Segment): string {
    match s
    case Char(c) => [c]
    case Escaped => "$$"
    case Dollar => "$"
    case Plain(name) => "$" + name
    case Braced(inner) => "${" + inner + "}"
    case Unterminated(rest) => "${" + rest
  }

  /** Where the piece at `i` ends. */
  function EndOf(t: string, i: nat): (next: nat)
    requires i < |t|
    ensures i < next <= |t|
  {
    i + |Source(PieceAt(t, i))|
  }

  lemma OpenIsThere(t: string, i: nat, n: nat)
    requires i + 2 <= n <= |t| && t[i] == '$' && t[i + 1] == '{'
    ensures t[i..n] == "${" + t[i + 2..n] == Source(Unterminated(t[i + 2..n]))
  {
  }

  lemma ClosedIsThere(t: string, i: nat, n: nat)
    requires i + 2 <= n < |t| && t[i] == '$' && t[i + 1] == '{' && t[n] == '}'
    ensures t[i..n + 1] == Source(Braced(t[i + 2..n])) && |Source(Braced(t[i + 2..n]))| == n + 1 - i
  {
    OpenIsThere(t, i, n);
    assert t[i..n + 1] == t[i..n] + [t[n]];
  }

  lemma NameIsThere(t: string, i: nat, n: nat)
    requires i < n <= |t| && t[i] == '$'
    ensures t[i..n] == Source(Plain(t[i + 1..n])) && |Source(Plain(t[i + 1..n]))| == n - i
  {
  }

  ghost predicate IsThere(t: string, i: nat)
    requires i < |t|
  {
    t[i..EndOf(t, i)] == Source(PieceAt(t, i))
  }

  lemma BraceIsThere(t: string, i: nat)
    requires i + 1 < |t| && t[i] == '$' && t[i + 1] == '{'
    ensures IsThere(t, i)
  {
    if Find(t, '}', i + 2) < |t| {
      ClosedIsThere(t, i, Find(t, '}', i + 2));
    } else {
      OpenIsThere(t, i, |t|);
      assert t[i + 2..|t|] == t[i + 2..];
    }
  }

  lemma IdentIsThere(t: string, i: nat)
    requires i < |t| && t[i] == '$' && (i + 1 < |t| ==> t[i + 1] != '$' && t[i + 1] != '{')
    ensures IsThere(t, i)
  {
    var n := IdentEnd(t, i + 1);
    if n > i + 1 {
      NameIsThere(t, i, n);
    } else {
      assert t[i..i + 1] == [t[i]];
    }
  }

  /** The piece at `i` is spelled out there. */
  lemma PieceIsThere(t: string, i: nat)
    requires i < |t|
    ensures IsThere(t, i)
  {
    if t[i] == '$' && i + 1 < |t| && t[i + 1] == '{' {
      BraceIsThere(t, i);
    } else if t[i] == '$' && i + 1 < |t| && t[i + 1] == '$' {
      assert t[i..i + 2] == [t[i], t[i + 1]];
    } else if t[i] == '$' {
      IdentIsThere(t, i);
    } else {
      assert t[i..i + 1] == [t[i]];
    }
  }

  /** The pieces from `i` on. No context enters here: what a reference stands for is never scanned again. */
  function Segments(t: string, i: nat): seq<Segment>
    requires i <= |t|
    decreases |t| - i
  {
    if i == |t| then [] else [PieceAt(t, i)] + Segments(t, EndOf(t, i))
  }

  /** The pieces of a template. */
  function Pieces(t: string): seq<Segment> {
    Segments(t, 0)
  }

  function SourceOf(segments: seq<Segment>): string {
    if segments == [] then [] else Source(segments[0]) + SourceOf(segments[1..])
  }

  lemma SourceOfCons(s: Segment, rest: seq<Segment>)
    ensures SourceOf([s] + rest) == Source(s) + SourceOf(rest)
  {
    assert ([s] + rest)[1..] == rest;
  }

  lemma CutInTwo(t: string, i: nat, k: nat)
    requires i <= k <= |t|
    ensures t[i..k] + t[k..] == t[i..]
  {
  }

  lemma {:induction false} SegmentsSpellRest(t: string, i: nat)
    requires i <= |t|
    ensures SourceOf(Segments(t, i)) == t[i..]
    decreases |t| - i
  {
    if i < |t| {
      SegmentsSpellRest(t, EndOf(t, i));
      SourceOfCons(PieceAt(t, i), Segments(t, EndOf(t, i)));
      PieceIsThere(t, i);
      CutInTwo(t, i, EndOf(t, i));
    }
  }

  /** Segmentation loses nothing: the pieces spell the template. */
  lemma SegmentsSpellTemplate(t: string)
    ensures SourceOf(Pieces(t)) == t
  {
    SegmentsSpellRest(t, 0);
  }

  // ----- values -----

  /** Where values come from, the highest priority first; secrets only by explicit reference. */
  datatype Sources = Sources(
    perPane: map<string, string>,
    dotenv: map<string, string>,
    process: map<string, string>,
    secrets: map<string, string>)

  datatype ExpandError =
    | Required(name: string, message: string)
    | UnknownSecret(key: string)
    | UnterminatedBrace
    | EmptySecretKey
    | EmptyName
    | InvalidName(name: string)

  /** A value or an error, and whether an external source was read on the way. */
  datatype Outcome = Outcome(result: Result<string, ExpandError>, sensitive: bool)

  function LookupPlain(src: Sources, name: string): (Option<string>, bool) {
    if name in src.perPane then (Some(src.perPane[name]), false)
    else if name in src.dotenv then (Some(src.dotenv[name]), true)
    else if name in src.process then (Some(src.process[name]), true)
    else (None, false)
  }

  function CheckName(name: string): Option<ExpandError> {
    if name == "" then Some(EmptyName)
    else if !IsAlpha(name[0]) || exists i :: 1 <= i < |name| && !IsAlnum(name[i]) then Some(InvalidName(name))
    else None
  }

  datatype Operator = NoOperator | OrError | OrDefault

  /** The operator at the first colon. */
  function OperatorOf(inner: string): Operator {
    var i := Find(inner, ':', 0);
    if i + 1 >= |inner| then NoOperator
    else if inner[i + 1] == '?' then OrError
    else if inner[i + 1] == '-' then OrDefault
    else NoOperator
  }

  const SECRET := "secret:"

  function EvalSecret(src: Sources, key: string): Outcome {
    if key == "" then Outcome(Err(EmptySecretKey), false)
    else if key in src.secrets then Outcome(Ok(src.secrets[key]), true)
    else Outcome(Err(UnknownSecret(key)), true)
  }

  function EvalVariable(src: Sources, name: string, op: Operator, tail: string): Outcome {
    var bad := CheckName(name);
    if bad.Some? then Outcome(Err(bad.value), false)
    else
      var (v, sensitive) := LookupPlain(src, name);
      var missing := v.None? || v.value == "";
      match op
      case OrError => Outcome(if missing then Err(Required(name, tail)) else Ok(v.value), sensitive)
      case OrDefault => Outcome(Ok(if missing then tail else v.value), sensitive)
      case NoOperator => Outcome(Ok(if v.Some? then v.value else ""), sensitive)
  }

  /** The contents of `${...}`. */
  function EvalBraced(src: Sources, inner: string): Outcome {
    if SECRET <= inner then EvalSecret(src, Trim(inner[|SECRET|..]))
    else
      var op := OperatorOf(inner);
      if op == NoOperator then EvalVariable(src, inner, op, "")
      else
        var i := Find(inner, ':', 0);
        EvalVariable(src, inner[..i], op, inner[i + 2..])
  }

  function Eval(src: Sources, s: Segment): Outcome {
    match s
    case Char(c) => Outcome(Ok([c]), false)
    case Escaped => Outcome(Ok("$"), false)
    case Dollar => Outcome(Ok("$"), false)
    case Plain(name) =>
      var (v, sensitive) := LookupPlain(src, name);
      Outcome(Ok(if v.Some? then v.value else ""), sensitive)
    case Braced(inner) => EvalBraced(src, inner)
    case Unterminated(_) => Outcome(Err(UnterminatedBrace), false)
  }

  /** Appends the outcome of the rest to the text so far; the first error wins. */
  function Then(sofar: string, sensitive: bool, rest: Outcome): Outcome {
    Outcome(if rest.result.Ok? then Ok(sofar + rest.result.value) else rest.result, sensitive || rest.sensitive)
  }

  /** Left to right, stopping at the first error. */
  function EvalAll(src: Sources, segments: seq<Segment>): Outcome {
    if segments == [] then Outcome(Ok(""), false)
    else
      var o := Eval(src, segments[0]);
      if o.result.Err? then o else Then(o.result.value, o.sensitive, EvalAll(src, segments[1..]))
  }

  // ----- the expander as it scans -----

  class EnvContext {
    const src: Sources
    var sensitiveRead: bool

    constructor (src: Sources)
      ensures this.src == src && !sensitiveRead
    {
      this.src := src;
      sensitiveRead := false;
    }

    method Lookup(name: string) returns (v: Option<string>)
      modifies this
      ensures v == LookupPlain(src, name).0
      ensures sensitiveRead == (old(sensitiveRead) || LookupPlain(src, name).1)
    {
      if name in src.perPane {
        return Some(src.perPane[name]);
      }
      if name in src.dotenv {
        sensitiveRead := true;
        return Some(src.dotenv[name]);
      }
      if name in src.process {
        sensitiveRead := true;
        return Some(src.process[name]);
      }
      return None;
    }

    method ExpandVariable(name: string, op: Operator, tail: string) returns (r: Result<string, ExpandError>)
      modifies this
      ensures r == EvalVariable(src, name, op, tail).result
      ensures sensitiveRead == (old(sensitiveRead) || EvalVariable(src, name, op, tail).sensitive)
    {
      var bad := CheckName(name);
      if bad.Some? {
        return Err(bad.value);
      }
      var v := Lookup(name);
      match op
      case OrError =>
        if v.Some? && v.value != "" {
          return Ok(v.value);
        }
        return Err(Required(name, tail));
      case OrDefault =>
        return Ok(if v.Some? && v.value != "" then v.value else tail);
      case NoOperator =>
        return Ok(if v.Some? then v.value else "");
    }

    method ExpandBraced(inner: string) returns (r: Result<string, ExpandError>)
      modifies this
      ensures r == EvalBraced(src, inner).result
      ensures sensitiveRead == (old(sensitiveRead) || EvalBraced(src, inner).sensitive)
    {
      if SECRET <= inner {
        var key := Trim(inner[|SECRET|..]);
        if key == "" {
          return Err(EmptySecretKey);
        }
        sensitiveRead := true;
        return if key in src.secrets then Ok(src.secrets[key]) else Err(UnknownSecret(key));
      }
      var op := OperatorOf(inner);
      if op == NoOperator {
        r := ExpandVariable(inner, op, "");
      } else {
        var i := Find(inner, ':', 0);
        r := ExpandVariable(inner[..i], op, inner[i + 2..]);
      }
    }

    static method FindClose(t: string, start: nat) returns (j: nat)
      requires start <= |t|
      ensures j == Find(t, '}', start)
    {
      j := start;
      while j < |t| && t[j] != '}'
        invariant start <= j <= |t| && Find(t, '}', start) == Find(t, '}', j)
      {
        j := j + 1;
      }
    }

    static method ScanIdentifierEnd(t: string, start: nat) returns (j: nat)
      requires start <= |t|
      ensures j == IdentEnd(t, start)
    {
      if start == |t| || !IsAlpha(t[start]) {
        return start;
      }
      j := start;
      while j < |t| && IsAlnum(t[j])
        invariant start <= j <= |t| && AlnumEnd(t, start) == AlnumEnd(t, j)
      {
        j := j + 1;
      }
    }

    /** One piece of the template, from position `i`: its text or an error, and where the next piece starts. */
    method ExpandAt(t: string, i: nat) returns (r: Result<string, ExpandError>, next: nat)
      requires i < |t|
      modifies this
      ensures r == Eval(src, PieceAt(t, i)).result
      ensures sensitiveRead == (old(sensitiveRead) || Eval(src, PieceAt(t, i)).sensitive)
      ensures r.Ok? ==> next == EndOf(t, i)
    {
      if t[i] != '$' {
        return Ok([t[i]]), i + 1;
      }
      if i + 1 < |t| && t[i + 1] == '$' {
        return Ok("$"), i + 2;
      }
      if i + 1 < |t| && t[i + 1] == '{' {
        var close := FindClose(t, i + 2);
        if close == |t| {
          return Err(UnterminatedBrace), |t|;
        }
        r := ExpandBraced(t[i + 2..close]);
        return r, close + 1;
      }
      var end := ScanIdentifierEnd(t, i + 1);
      if end > i + 1 {
        var v := Lookup(t[i + 1..end]);
        return Ok(if v.Some? then v.value else ""), end;
      }
      return Ok("$"), i + 1;
    }

    /** Scans the template once, left to right. */
    method Expand(t: string) returns (r: Result<string, ExpandError>)
      modifies this
      ensures r == EvalAll(src, Pieces(t)).result
      ensures sensitiveRead == (old(sensitiveRead) || EvalAll(src, Pieces(t)).sensitive)
    {
      var out := "";
      var i := 0;
      ghost var seen := false;
      ghost var whole := EvalAll(src, Pieces(t));
      ThenNothing(whole);
      while i < |t|
        invariant i <= |t|
        invariant sensitiveRead == (old(sensitiveRead) || seen)
        invariant whole == Then(out, seen, EvalAll(src, Segments(t, i)))
        decreases |t| - i
      {
        ghost var o := Eval(src, PieceAt(t, i));
        ScanStep(src, t, i, out, seen);
        var piece, next := ExpandAt(t, i);
        if piece.Err? {
          return piece;
        }
        out := out + piece.value;
        seen := seen || o.sensitive;
        i := next;
      }
      assert out + "" == out;
      return Ok(out);
    }

    /** Clears the flag first, so that it speaks of this expansion alone. */
    method ExpandWithSensitivity(t: string) returns (r: Result<(string, bool), ExpandError>)
      modifies this
      ensures var o := EvalAll(src, Pieces(t));
              r == if o.result.Ok? then Ok((o.result.value, o.sensitive)) else Err(o.result.error)
    {
      sensitiveRead := false;
      var value := Expand(t);
      if value.Err? {
        return Err(value.error);
      }
      return Ok((value.value, sensitiveRead));
    }
  }

  lemma ThenNothing(o: Outcome)
    ensures Then("", false, o) == o
  {
    if o.result.Ok? {
      assert "" + o.result.value == o.result.value;
    }
  }

  lemma ThenThen(a: string, p: bool, b: string, q: bool, rest: Outcome)
    ensures Then(a, p, Then(b, q, rest)) == Then(a + b, p || q, rest)
  {
    if rest.result.Ok? {
      assert a + (b + rest.result.value) == (a + b) + rest.result.value;
    }
  }

  /** One piece further in the scan: the text so far grows, or the error ends it. */
  lemma ScanStep(src: Sources, t: string, i: nat, out: string, seen: bool)
    requires i < |t|
    ensures var o := Eval(src, PieceAt(t, i));
            && Then(out, seen, EvalAll(src, Segments(t, i)))
               == if o.result.Err? then Outcome(o.result, seen || o.sensitive)
                  else Then(out + o.result.value, seen || o.sensitive, EvalAll(src, Segments(t, EndOf(t, i))))
  {
    var o := Eval(src, PieceAt(t, i));
    assert Segments(t, i)[1..] == Segments(t, EndOf(t, i));
    if o.result.Ok? {
      ThenThen(out, seen, o.result.value, o.sensitive, EvalAll(src, Segments(t, EndOf(t, i))));
    }
  }

  /** A template that is a single piece. */
  lemma SinglePiece(src: Sources, t: string)
    requires t != "" && EndOf(t, 0) == |t|
    ensures EvalAll(src, Pieces(t)) == Eval(src, PieceAt(t, 0))
  {
    var o := Eval(src, PieceAt(t, 0));
    assert Segments(t, EndOf(t, 0)) == [];
    assert Segments(t, 0) == [PieceAt(t, 0)] + Segments(t, EndOf(t, 0));
    assert Pieces(t)[1..] == [];
    if o.result.Ok? {
      assert o.result.value + "" == o.result.value;
    }
  }

  // ----- dependence -----

  /** The same overrides, and no variable that the first sources do not also define; values and secrets may differ. */
  ghost predicate Within(other: Sources, src: Sources) {
    other.perPane == src.perPane && other.dotenv.Keys <= src.dotenv.Keys && other.process.Keys <= src.process.Keys
  }

  lemma EvalIndependent(src: Sources, other: Sources, s: Segment)
    requires Within(other, src) && !Eval(src, s).sensitive
    ensures Eval(other, s) == Eval(src, s)
  {
    forall name | !LookupPlain(src, name).1 ensures LookupPlain(other, name) == LookupPlain(src, name) {
    }
  }

  /**
   * A clear flag means independence: whatever the other environment files, process variables and secrets hold under
   * the same names or fewer, the outcome, be it a value or an error, is the same, and its flag is clear again.
   */
  lemma {:induction false} ClearFlagMeansIndependent(src: Sources, other: Sources, segments: seq<Segment>)
    requires Within(other, src) && !EvalAll(src, segments).sensitive
    ensures EvalAll(other, segments) == EvalAll(src, segments)
  {
    if segments != [] {
      EvalIndependent(src, other, segments[0]);
      if Eval(src, segments[0]).result.Ok? {
        ClearFlagMeansIndependent(src, other, segments[1..]);
      }
    }
  }

  /** In particular nothing changes when every external source is emptied. */
  lemma ExpandsTheSameWhenEmptied(src: Sources, t: string)
    requires !EvalAll(src, Pieces(t)).sensitive
    ensures EvalAll(Sources(src.perPane, map[], map[], map[]), Pieces(t)) == EvalAll(src, Pieces(t))
  {
    ClearFlagMeansIndependent(src, Sources(src.perPane, map[], map[], map[]), Pieces(t));
  }

  /** The piece asks for a secret. */
  predicate AsksSecret(s: Segment) {
    s.Braced? && SECRET <= s.inner
  }

  /** Secrets are consulted only where the template says `${secret:`: elsewhere they make no difference. */
  lemma {:induction false} SecretsOnlyOnRequest(src: Sources, secrets: map<string, string>, segments: seq<Segment>)
    requires forall i :: 0 <= i < |segments| ==> !AsksSecret(segments[i])
    ensures EvalAll(src.(secrets := secrets), segments) == EvalAll(src, segments)
  {
    if segments != [] {
      assert !AsksSecret(segments[0]);
      assert Eval(src.(secrets := secrets), segments[0]) == Eval(src, segments[0]);
      SecretsOnlyOnRequest(src, secrets, segments[1..]);
    }
  }

  // ----- escaping -----

  function Doubled(text: string): string {
    if text == [] then [] else (if text[0] == '$' then "$$" else [text[0]]) + Doubled(text[1..])
  }

  lemma {:induction false} DoublingProtectsAfter(src: Sources, before: string, text: string)
    ensures EvalAll(src, Segments(before + Doubled(text), |before|)) == Outcome(Ok(text), false)
    decreases |text|
  {
    var t := before + Doubled(text);
    if text != [] {
      var n := if text[0] == '$' then 2 else 1;
      var (first, rest) := (Doubled(text)[..n], Doubled(text)[n..]);
      assert rest == Doubled(text[1..]) && t == (before + first) + rest;
      DoublingProtectsAfter(src, before + first, text[1..]);
      assert t[|before|] == text[0] && (n == 2 ==> t[|before| + 1] == '$');
      assert EndOf(t, |before|) == |before + first|;
      assert Segments(t, |before|)[1..] == Segments(t, |before| + n);
      assert [text[0]] + text[1..] == text;
    }
  }

  /** Doubling every dollar sign protects any text: it expands to itself and reads nothing. */
  lemma DoublingProtects(src: Sources, text: string)
    ensures EvalAll(src, Pieces(Doubled(text))) == Outcome(Ok(text), false)
  {
    assert "" + Doubled(text) == Doubled(text);
    DoublingProtectsAfter(src, "", text);
  }

  // ----- the documented forms -----

  /** Lookup is lookup in the overlay of the sources, lowest priority first. */
  lemma LookupIsOverlay(src: Sources, name: string)
    ensures var all := src.process + src.dotenv + src.perPane;
            LookupPlain(src, name).0 == if name in all then Some(all[name]) else None
  {
  }

  /** An ASCII letter or the underscore, by its code. */
  predicate IsLetter(c: char) { 65 <= c as int <= 90 || 97 <= c as int <= 122 || c as int == 95 }

  predicate IsLetterOrDigit(c: char) { IsLetter(c) || 48 <= c as int <= 57 }

  predicate IsName(name: string) {
    name != "" && IsLetter(name[0]) && forall i :: 0 <= i < |name| ==> IsLetterOrDigit(name[i])
  }

  /** The first occurrence is at `n`, or there is none before the end. */
  lemma {:induction false} FindIs(s: string, c: char, i: nat, n: nat)
    requires i <= n <= |s| && (forall j :: i <= j < n ==> s[j] != c) && (n < |s| ==> s[n] == c)
    ensures Find(s, c, i) == n
    decreases n - i
  {
    if i < n {
      FindIs(s, c, i + 1, n);
    }
  }

  lemma {:induction false} AlnumEndIs(s: string, i: nat)
    requires i <= |s| && forall j :: i <= j < |s| ==> IsAlnum(s[j])
    ensures AlnumEnd(s, i) == |s|
    decreases |s| - i
  {
    if i < |s| {
      AlnumEndIs(s, i + 1);
    }
  }

  // A template's pieces do not depend on what stands before them.

  /** From `d` on, `t` is `s`. */
  ghost predicate EndsIn(t: string, d: nat, s: string) {
    |t| == d + |s| && forall j :: 0 <= j < |s| ==> t[d + j] == s[j]
  }

  lemma {:induction false} FindShift(t: string, d: nat, s: string, c: char, i: nat)
    requires EndsIn(t, d, s) && i <= |s|
    ensures Find(t, c, d + i) == d + Find(s, c, i)
    decreases |s| - i
  {
    if i < |s| && s[i] != c {
      FindShift(t, d, s, c, i + 1);
    }
  }

  lemma {:induction false} AlnumEndShift(t: string, d: nat, s: string, i: nat)
    requires EndsIn(t, d, s) && i <= |s|
    ensures AlnumEnd(t, d + i) == d + AlnumEnd(s, i)
    decreases |s| - i
  {
    if i < |s| && IsAlnum(s[i]) {
      AlnumEndShift(t, d, s, i + 1);
    }
  }

  lemma SliceShift(t: string, d: nat, s: string, i: nat, n: nat)
    requires EndsIn(t, d, s) && i <= n <= |s|
    ensures t[d + i..d + n] == s[i..n]
  {
  }

  lemma BraceShift(t: string, d: nat, s: string, i: nat)
    requires EndsIn(t, d, s) && i + 1 < |s| && s[i] == '$' && s[i + 1] == '{'
    ensures PieceAt(t, d + i) == PieceAt(s, i)
  {
    var n := Find(s, '}', i + 2);
    FindShift(t, d, s, '}', i + 2);
    SliceShift(t, d, s, i + 2, n);
    assert n == |s| ==> t[d + i + 2..] == s[i + 2..];
  }

  lemma NameShift(t: string, d: nat, s: string, i: nat)
    requires EndsIn(t, d, s) && i < |s| && s[i] == '$' && (i + 1 < |s| ==> s[i + 1] != '$' && s[i + 1] != '{')
    ensures PieceAt(t, d + i) == PieceAt(s, i)
  {
    if i + 1 < |s| {
      AlnumEndShift(t, d, s, i + 1);
      SliceShift(t, d, s, i + 1, IdentEnd(s, i + 1));
    }
  }

  /** The piece at `i` in `s` is the one at the corresponding position `k` in `t`, and both end alike. */
  lemma PieceShift(t: string, k: nat, s: string, i: nat)
    requires |s| <= |t| && EndsIn(t, |t| - |s|, s) && i < |s| && k == |t| - |s| + i
    ensures PieceAt(t, k) == PieceAt(s, i) && EndOf(t, k) == |t| - |s| + EndOf(s, i)
  {
    if s[i] == '$' && i + 1 < |s| && s[i + 1] == '{' {
      BraceShift(t, |t| - |s|, s, i);
    } else if s[i] == '$' && (i + 1 < |s| ==> s[i + 1] != '$') {
      NameShift(t, |t| - |s|, s, i);
    }
  }

  lemma {:induction false} SegmentsShift(t: string, k: nat, s: string, i: nat)
    requires |s| <= |t| && EndsIn(t, |t| - |s|, s) && i <= |s| && k == |t| - |s| + i
    ensures Segments(t, k) == Segments(s, i)
    decreases |s| - i
  {
    if i < |s| {
      PieceShift(t, k, s, i);
      SegmentsShift(t, EndOf(t, k), s, EndOf(s, i));
    }
  }

  /** One expansion after the other; the first error wins. */
  function Followed(first: Result<string, ExpandError>, second: Result<string, ExpandError>)
    : Result<string, ExpandError>
  {
    if first.Err? then first else if second.Err? then second else Ok(first.value + second.value)
  }

  function Expanded(src: Sources, t: string): Result<string, ExpandError> {
    EvalAll(src, Pieces(t)).result
  }

  /** `${...}` and what follows it. */
  lemma BracedThen(src: Sources, inner: string, rest: string)
    requires '}' !in inner
    ensures Expanded(src, "${" + inner + "}" + rest) == Followed(EvalBraced(src, inner).result, Expanded(src, rest))
  {
    var before := "${" + inner + "}";
    var t := before + rest;
    FindIs(t, '}', 2, |inner| + 2);
    assert t[2..|inner| + 2] == inner;
    assert PieceAt(t, 0) == Braced(inner);
    assert EndOf(t, 0) == |before|;
    SegmentsShift(t, |before|, rest, 0);
    assert Pieces(t)[1..] == Pieces(rest);
  }

  /** A whole `${...}` is one reference. */
  lemma BracedWhole(src: Sources, inner: string)
    requires '}' !in inner
    ensures EvalAll(src, Pieces("${" + inner + "}")) == EvalBraced(src, inner)
  {
    var t := "${" + inner + "}";
    FindIs(t, '}', 2, |inner| + 2);
    assert t[2..|inner| + 2] == inner;
    assert PieceAt(t, 0) == Braced(inner);
    SinglePiece(src, t);
  }

  function ValueOrEmpty(src: Sources, name: string): Outcome {
    var (v, sensitive) := LookupPlain(src, name);
    Outcome(Ok(if v.Some? then v.value else ""), sensitive)
  }

  lemma BracedName(src: Sources, name: string)
    requires IsName(name)
    ensures EvalBraced(src, name) == ValueOrEmpty(src, name)
  {
    FindIs(name, ':', 0, |name|);
    assert SECRET[6] == ':';
  }

  lemma BareName(src: Sources, name: string)
    requires IsName(name)
    ensures EvalAll(src, Pieces("$" + name)) == ValueOrEmpty(src, name)
  {
    var t := "$" + name;
    assert t[1..|t|] == name && t[1] == name[0];
    AlnumEndIs(t, 1);
    assert PieceAt(t, 0) == Plain(name);
    SinglePiece(src, t);
  }

  /** A bare name ends where letters, digits and underscores end. */
  lemma BareNameThen(src: Sources, name: string, rest: string)
    requires IsName(name) && (rest != "" ==> !IsLetterOrDigit(rest[0]))
    ensures Expanded(src, "$" + name + rest) == Followed(ValueOrEmpty(src, name).result, Expanded(src, rest))
  {
    var before := "$" + name;
    var t := before + rest;
    assert forall j :: 1 <= j < |before| ==> t[j] == name[j - 1];
    AlnumEndAt(t, 1, |before|);
    assert t[1..|before|] == name && t[1] == name[0];
    assert PieceAt(t, 0) == Plain(name) && EndOf(t, 0) == |before|;
    SegmentsShift(t, |before|, rest, 0);
    assert Pieces(t)[1..] == Pieces(rest);
  }

  lemma {:induction false} AlnumEndAt(s: string, i: nat, n: nat)
    requires i <= n <= |s| && (forall j :: i <= j < n ==> IsAlnum(s[j])) && (n < |s| ==> !IsAlnum(s[n]))
    ensures AlnumEnd(s, i) == n
    decreases n - i
  {
    if i < n {
      AlnumEndAt(s, i + 1, n);
    }
  }

  /** A dollar sign before anything else is just that. */
  lemma DollarAlone(src: Sources, rest: string)
    requires rest != "" ==> !IsLetter(rest[0]) && rest[0] != '$' && rest[0] != '{'
    ensures Expanded(src, "$" + rest) == Followed(Ok("$"), Expanded(src, rest))
  {
    var t := "$" + rest;
    assert rest != "" ==> t[1] == rest[0];
    assert PieceAt(t, 0) == Dollar;
    SegmentsShift(t, 1, rest, 0);
    assert Pieces(t)[1..] == Pieces(rest);
  }

  /** Braces around anything else than a name, or nothing, are an error. */
  lemma OtherNamesAreErrors(src: Sources, inner: string, rest: string)
    requires !IsName(inner) && ':' !in inner && '}' !in inner
    ensures Expanded(src, "${" + inner + "}" + rest) == Err(if inner == "" then EmptyName else InvalidName(inner))
  {
    BracedThen(src, inner, rest);
    FindIs(inner, ':', 0, |inner|);
    assert SECRET[6] == ':';
  }

  /** A colon without an operator is part of the name, which makes it none. */
  lemma StrayColonIsError(src: Sources, name: string, more: string, rest: string)
    requires ':' !in name && name != "secret" && '}' !in name && '}' !in more
    requires more != "" ==> more[0] != '?' && more[0] != '-'
    ensures Expanded(src, "${" + (name + ":" + more) + "}" + rest) == Err(InvalidName(name + ":" + more))
  {
    var inner := name + ":" + more;
    assert forall j :: 0 <= j < |name| ==> inner[j] == name[j];
    FindIs(inner, ':', 0, |name|);
    assert more != "" ==> inner[|name| + 1] == more[0];
    OnlySecret(name, more);
    assert inner[|name|] == ':' && !IsAlnum(':');
    BracedThen(src, inner, rest);
  }

  lemma OnlySecret(name: string, more: string)
    requires ':' !in name
    ensures SECRET <= name + ":" + more ==> name == "secret"
  {
    var inner := name + ":" + more;
    assert forall j :: 0 <= j < |name| ==> inner[j] == name[j];
    if SECRET <= inner {
      FindIs(inner, ':', 0, |name|);
      assert forall j :: 0 <= j < 7 ==> inner[j] == SECRET[j];
      FindIs(inner, ':', 0, 6);
      assert name == inner[..6];
    }
  }

  // ----- secrets -----

  /** `${secret:KEY}` is the secret of that key, or an error if there is none; and no other source is asked. */
  lemma SecretForm(src: Sources, before: string, key: string, after: string)
    requires TrimmedAlready(key) && '}' !in before && '}' !in key && '}' !in after && AllWhite(before) && AllWhite(after)
    ensures EvalAll(src, Pieces("${" + ("secret:" + (before + key + after)) + "}"))
         == if key == "" then Outcome(Err(EmptySecretKey), false)
            else if key in src.secrets then Outcome(Ok(src.secrets[key]), true)
            else Outcome(Err(UnknownSecret(key)), true)
  {
    var inner := "secret:" + (before + key + after);
    BracedWhole(src, inner);
    assert inner[|SECRET|..] == before + key + after;
    TrimsTo(before, key, after);
  }

  /** `$NAME` and `${NAME}` mean the same: the value, or nothing when unset. */
  lemma NameForms(src: Sources, name: string)
    requires IsName(name)
    ensures EvalAll(src, Pieces("$" + name)) == ValueOrEmpty(src, name)
    ensures EvalAll(src, Pieces("${" + name + "}")) == ValueOrEmpty(src, name)
  {
    assert '}' !in name;
    BareName(src, name);
    BracedWhole(src, name);
    BracedName(src, name);
  }

  /** What a variable stands for, when it is set and not empty. */
  function SetValue(src: Sources, name: string): Option<string> {
    var v := LookupPlain(src, name).0;
    if v.Some? && v.value != "" then v else None
  }

  function Form(name: string, op: char, tail: string): string { name + [':', op] + tail }

  lemma FormParts(name: string, op: char, tail: string)
    ensures var f := Form(name, op, tail);
            && |f| == |name| + 2 + |tail| && f[..|name|] == name && f[|name|] == ':' && f[|name| + 1] == op
            && f[|name| + 2..] == tail && f[|name| + 1..] == [op] + tail
  {
  }

  lemma OperatorAfterName(name: string, op: char, tail: string)
    requires ':' !in name
    ensures Find(Form(name, op, tail), ':', 0) == |name|
    ensures SECRET <= Form(name, op, tail) <==> name == "secret"
  {
    var f := Form(name, op, tail);
    FormParts(name, op, tail);
    forall j | 0 <= j < |name| ensures f[j] != ':' {
      assert f[j] == name[j];
    }
    FindIs(f, ':', 0, |name|);
    if SECRET <= f {
      FindIs(f, ':', 0, 6) by {
        assert forall j :: 0 <= j < 7 ==> f[j] == SECRET[j];
      }
      assert name == f[..6] == "secret";
    }
  }

  /** How a form with an operator is read. */
  lemma EvalForm(src: Sources, name: string, op: char, tail: string)
    requires ':' !in name && (op == '?' || op == '-')
    ensures EvalBraced(src, Form(name, op, tail))
         == if name == "secret" then EvalSecret(src, Trim([op] + tail))
            else EvalVariable(src, name, if op == '?' then OrError else OrDefault, tail)
  {
    OperatorAfterName(name, op, tail);
    FormParts(name, op, tail);
  }

  /** The expansion of a whole reference with an operator. */
  function Expansion(src: Sources, name: string, op: char, tail: string): Result<string, ExpandError> {
    Expanded(src, "${" + Form(name, op, tail) + "}")
  }

  /** The part of a default or message that the reference gets: up to the first closing brace. */
  function Taken(tail: string): string {
    tail[..Find(tail, '}', 0)]
  }

  /** The part that is left behind as template text, with the brace meant to close the reference. */
  function LeftBehind(tail: string): string {
    var k := Find(tail, '}', 0);
    if k == |tail| then "" else tail[k + 1..] + "}"
  }

  lemma {:induction false} FindFirst(s: string, c: char, i: nat)
    requires i <= |s|
    ensures forall j :: i <= j < Find(s, c, i) ==> s[j] != c
    decreases |s| - i
  {
    if i < |s| && s[i] != c {
      FindFirst(s, c, i + 1);
    }
  }

  lemma TakenIsAll(tail: string)
    ensures '}' !in Taken(tail)
    ensures '}' !in tail ==> Taken(tail) == tail && LeftBehind(tail) == ""
    ensures '}' in tail ==> Taken(tail) != tail && LeftBehind(tail) != ""
  {
    FindFirst(tail, '}', 0);
  }

  lemma FormSplits(name: string, op: char, tail: string)
    ensures "${" + Form(name, op, tail) + "}" == "${" + Form(name, op, Taken(tail)) + "}" + LeftBehind(tail)
  {
    var k := Find(tail, '}', 0);
    if k == |tail| {
      assert tail[..k] == tail;
    } else {
      assert tail == tail[..k] + ['}'] + tail[k + 1..];
    }
  }

  lemma ExpansionIs(src: Sources, name: string, op: char, tail: string)
    requires '}' !in name && (op == '?' || op == '-')
    ensures Expansion(src, name, op, tail)
         == Followed(EvalBraced(src, Form(name, op, Taken(tail))).result, Expanded(src, LeftBehind(tail)))
  {
    TakenIsAll(tail);
    FormSplits(name, op, tail);
    assert '}' !in Form(name, op, Taken(tail));
    BracedThen(src, Form(name, op, Taken(tail)), LeftBehind(tail));
  }

  function DefaultMeaning(src: Sources, name: string, default: string): Result<string, ExpandError> {
    Ok(if SetValue(src, name).Some? then SetValue(src, name).value else default)
  }

  function RequiredMeaning(src: Sources, name: string, message: string): Result<string, ExpandError> {
    if SetValue(src, name).Some? then Ok(SetValue(src, name).value) else Err(Required(name, message))
  }

  lemma SetOrMissing(src: Sources, name: string, tail: string)
    requires IsName(name)
    ensures EvalVariable(src, name, OrDefault, tail).result == DefaultMeaning(src, name, tail)
    ensures EvalVariable(src, name, OrError, tail).result == RequiredMeaning(src, name, tail)
  {
    assert CheckName(name).None?;
  }

  lemma NoName(name: string)
    requires !IsName(name)
    ensures CheckName(name) == Some(if name == "" then EmptyName else InvalidName(name)) && name != "secret"
  {
    assert IsName("secret");
  }

  lemma NoNameNoValue(src: Sources, name: string, op: char, tail: string)
    requires !IsName(name) && ':' !in name && (op == '?' || op == '-')
    ensures EvalBraced(src, Form(name, op, tail)).result == Err(if name == "" then EmptyName else InvalidName(name))
  {
    NoName(name);
    EvalForm(src, name, op, tail);
  }

  /** Before an operator, too, anything else than a name is an error. */
  lemma OtherNamesAreErrorsToo(src: Sources, name: string, op: char, tail: string)
    requires !IsName(name) && ':' !in name && '}' !in name && (op == '?' || op == '-')
    ensures Expansion(src, name, op, tail) == Err(if name == "" then EmptyName else InvalidName(name))
  {
    ExpansionIs(src, name, op, tail);
    NoNameNoValue(src, name, op, Taken(tail));
  }

  const NOTHING := Sources(map[], map[], map[], map[])

  /**
   * `${NAME:-default}` for every name and default: the value if set and not empty, otherwise the default up to its
   * first closing brace, and then what is left behind, as template text. The variable called `secret` cannot be
   * written this way, because `${secret:` introduces a secret's key.
   */
  lemma {:induction false} DefaultForm(src: Sources, name: string, default: string)
    requires IsName(name)
    ensures Expansion(src, name, '-', default)
         == Followed(if name == "secret" then EvalSecret(src, Trim(['-'] + Taken(default))).result
                     else DefaultMeaning(src, name, Taken(default)),
                     Expanded(src, LeftBehind(default)))
  {
    ExpansionIs(src, name, '-', default);
    EvalForm(src, name, '-', Taken(default));
    SetOrMissing(src, name, Taken(default));
  }

  /** `${NAME:?message}` is the value if set and not empty and otherwise an error, read in the same way. */
  lemma {:induction false} RequiredForm(src: Sources, name: string, message: string)
    requires IsName(name)
    ensures Expansion(src, name, '?', message)
         == Followed(if name == "secret" then EvalSecret(src, Trim(['?'] + Taken(message))).result
                     else RequiredMeaning(src, name, Taken(message)),
                     Expanded(src, LeftBehind(message)))
  {
    ExpansionIs(src, name, '?', message);
    EvalForm(src, name, '?', Taken(message));
    SetOrMissing(src, name, Taken(message));
  }

  lemma FollowedByNothing(src: Sources, first: Result<string, ExpandError>)
    ensures Followed(first, Expanded(src, "")) == first
  {
    assert Pieces("") == [];
    if first.Ok? {
      assert first.value + "" == first.value;
    }
  }

  /** A variable whose value shows in the piece, if the piece needs one to show at all. */
  function Shown(s: Segment): string {
    match s
    case Plain(name) => name
    case Braced(inner) => if OperatorOf(inner) == NoOperator then inner else inner[..Find(inner, ':', 0)]
    case _ => ""
  }

  /** No piece, and so no nonempty template, disappears in every context. */
  lemma SomethingShows(src: Sources, t: string)
    requires t != "" && src.secrets == map[]
    requires Shown(PieceAt(t, 0)) in src.perPane && src.perPane[Shown(PieceAt(t, 0))] != ""
    ensures Expanded(src, t).Ok? ==> Expanded(src, t).value != ""
  {
    assert Segments(t, 0) == [PieceAt(t, 0)] + Segments(t, EndOf(t, 0));
    assert Eval(src, PieceAt(t, 0)).result.Ok? ==> Eval(src, PieceAt(t, 0)).result.value != "";
  }

  /** With a closing brace in it, a default can be wrong even where it is not used. */
  lemma BraceShows(name: string, default: string) returns (src: Sources)
    requires IsName(name) && name != "secret" && '}' in default
    ensures Expansion(src, name, '-', default) != DefaultMeaning(src, name, default)
  {
    TakenIsAll(default);
    var rest := LeftBehind(default);
    src := Sources(map[Shown(PieceAt(rest, 0)) := "v", name := "v"], map[], map[], map[]);
    DefaultForm(src, name, default);
    SomethingShows(src, rest);
    assert Expanded(src, rest).Ok? ==> |"v" + Expanded(src, rest).value| > 1;
  }

  /**
   * The default form means in every context what is documented if and only if the name is not `secret` and the
   * default has no closing brace.
   */
  lemma {:induction false} DefaultWorksIff(name: string, default: string)
    requires IsName(name)
    ensures (forall src :: Expansion(src, name, '-', default) == DefaultMeaning(src, name, default))
       <==> name != "secret" && '}' !in default
  {
    TakenIsAll(default);
    if name == "secret" {
      DefaultForm(NOTHING, name, default);
    } else if '}' in default {
      var src := BraceShows(name, default);
    } else {
      forall src ensures Expansion(src, name, '-', default) == DefaultMeaning(src, name, default) {
        DefaultForm(src, name, default);
        FollowedByNothing(src, DefaultMeaning(src, name, default));
      }
    }
  }

  /** And so for required values. */
  lemma {:induction false} RequiredWorksIff(name: string, message: string)
    requires IsName(name)
    ensures (forall src :: Expansion(src, name, '?', message) == RequiredMeaning(src, name, message))
       <==> name != "secret" && '}' !in message
  {
    TakenIsAll(message);
    RequiredForm(NOTHING, name, message);
    if name != "secret" && '}' !in message {
      forall src ensures Expansion(src, name, '?', message) == RequiredMeaning(src, name, message) {
        RequiredForm(src, name, message);
        FollowedByNothing(src, RequiredMeaning(src, name, message));
      }
    }
  }

  /** The first exception is real: with nothing defined anywhere, no default of a variable called `secret` is used. */
  lemma SecretHasNoDefault(default: string)
    ensures Expansion(NOTHING, "secret", '-', default).Err?
  {
    DefaultForm(NOTHING, "secret", default);
  }

  /** And so is the second: `${X:-a}}` with X set to v is v and a brace, though the default is not even used. */
  lemma BraceEndsDefault()
    ensures var src := Sources(map["X" := "v"], map[], map[], map[]);
            && Expansion(src, "X", '-', "a}") == Ok("v}")
            && DefaultMeaning(src, "X", "a}") == Ok("v")
  {
    var src := Sources(map["X" := "v"], map[], map[], map[]);
    FindIs("a}", '}', 0, 1);
    assert LeftBehind("a}") == "}";
    DefaultForm(src, "X", "a}");
    SinglePiece(src, "}");
    assert "v" + "}" == "v}";
  }
}
