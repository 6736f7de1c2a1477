/**
 Scanner primitives of the template parser (yarte_derive/src/parser/strnom.rs):
 an immutable cursor over the remaining source text, the two-valued lexer error,
 and the combinators `do_parse`, `opt`, `take_while`, `tag` and `map_fail`
 written as ordinary higher-order functions, plus whitespace skipping.

 Text is a sequence of chars, one unit per char, so `off` counts chars here;
 the Utf8Span module looks at what happens when it counts bytes.
 */
module StrNom {
  import opened Prelude

  /** Index of the first char of `s` accepted by `q` (Rust's `position`/`find`). */
  function Position(s: string, q: char -> bool): (r: Option<nat>)
    ensures r.Some? ==> r.value < |s| && q(s[r.value])
    ensures r.Some? ==> forall k | 0 <= k < r.value :: !q(s[k])
    ensures r.None? ==> forall k | 0 <= k < |s| :: !q(s[k])
  {
    if |s| == 0 then None
    else if q(s[0]) then Some(0)
    else match Position(s[1..], q)
      case None => None
      case Some(k) => Some(k + 1)
  }

  /** The char class `c == p`, as a function value. */
  function Is(p: char): char -> bool {
    c => c == p
  }

  /** The complement of a char class. */
  function Rejects(f: char -> bool): char -> bool {
    c => !f(c)
  }

  /** The remaining source text and the absolute offset of its first char. */
  datatype Cursor = Cursor(rest: string, off: nat) {

    function Len(): nat {
      |rest|
    }

    predicate IsEmpty() {
      |rest| == 0
    }

    /** The cursor `amt` chars further in; `amt` beyond the end is a caller error. */
    function Adv(amt: nat): (c: Cursor)
      requires amt <= Len()
      ensures c.Len() == Len() - amt
      ensures c.off + c.Len() == off + Len()
      ensures rest == rest[..amt] + c.rest
      ensures c.IsEmpty() <==> amt == Len()
    {
      Cursor(rest[amt..], off + amt)
    }

    /** Index of the first occurrence of `p` in the remaining text. */
    function Find(p: char): (r: Option<nat>)
      ensures r.None? <==> p !in rest
      ensures r.Some? ==> r.value < Len() && rest[r.value] == p && p !in rest[..r.value]
    {
      var r := Position(rest, Is(p));
      assert r.Some? ==> forall k | 0 <= k < r.value :: rest[..r.value][k] != p;
      assert r.Some? ==> rest[r.value] in rest;
      r
    }

    /** `find` on the text `amt` chars further in, without building the cursor. */
    function AdvFind(amt: nat, p: char): (r: Option<nat>)
      requires amt <= Len()
      ensures r == Adv(amt).Find(p)
      ensures r.None? <==> p !in rest[amt..]
      ensures r.Some? ==> amt + r.value < Len() && rest[amt + r.value] == p
    {
      Position(rest[amt..], Is(p))
    }

    /** Whether the remaining text begins with `s`. */
    function StartsWith(s: string): (b: bool)
      ensures b <==> |s| <= Len() && rest[..|s|] == s
    {
      s <= rest
    }

    /** `starts_with` on the text `amt` chars further in. */
    function AdvStartsWith(amt: nat, s: string): (b: bool)
      requires amt <= Len()
      ensures b == Adv(amt).StartsWith(s)
      ensures b <==> amt + |s| <= Len() && rest[amt..amt + |s|] == s
    {
      s <= rest[amt..]
    }
  }

  /** Advancing twice is advancing by the sum, so offsets compose. */
  lemma AdvCompose(c: Cursor, a: nat, b: nat)
    requires a + b <= c.Len()
    ensures c.Adv(a).Adv(b) == c.Adv(a + b)
  {
    assert c.rest[a..][b..] == c.rest[a + b..];
  }

  /** `Fail` aborts the whole parse attempt; `Next` means "try another production". */
  datatype LexError = Fail | Next

  type PResult<O> = Result<(Cursor, O), LexError>

  type Parser<O> = Cursor -> PResult<O>

  /** `do_parse!(i, ( e ))`: the closing tuple, produced without consuming anything. */
  function Done<O>(i: Cursor, v: O): PResult<O> {
    Ok((i, v))
  }

  /**
   One `>>` step of `do_parse!`: run `p`, bind its output (or drop it, when `k`
   ignores its argument), and continue with the cursor `p` returned.
   */
  function DoParse<A, B>(i: Cursor, p: Parser<A>, k: A -> Parser<B>): (r: PResult<B>)
    ensures p(i).Err? ==> r == Err(p(i).error)
    ensures r.Ok? ==> p(i).Ok?
  {
    match p(i)
    case Err(e) => Err(e)
    case Ok((i1, o)) => k(o)(i1)
  }

  /** `do_parse!` as a parser value, so that steps can be nested. */
  function Then<A, B>(p: Parser<A>, k: A -> Parser<B>): Parser<B> {
    i => DoParse(i, p, k)
  }

  /** `opt!`: any error of `p`, `Fail` included, becomes `None` at the original cursor. */
  function Opt<O>(i: Cursor, p: Parser<O>): (r: PResult<Option<O>>)
    ensures r.Ok?
    ensures r.value.1.Some? <==> p(i).Ok?
    ensures p(i).Ok? ==> r.value == (p(i).value.0, Some(p(i).value.1))
    ensures p(i).Err? ==> r.value.0 == i
  {
    match p(i)
    case Ok((i1, o)) => Ok((i1, Some(o)))
    case Err(_) => Ok((i, None))
  }

  /** `span` is the maximal leading run of `s` whose chars all satisfy `f`. */
  predicate IsRun(s: string, f: char -> bool, span: string) {
    && span <= s
    && (forall k | 0 <= k < |span| :: f(span[k]))
    && (|span| < |s| ==> !f(s[|span|]))
  }

  /** A string has exactly one maximal run. */
  lemma RunUnique(s: string, f: char -> bool, a: string, b: string)
    requires IsRun(s, f, a) && IsRun(s, f, b)
    ensures a == b
  {
  }

  /** `take_while!`: consume the maximal run of chars satisfying `f`; never fails. */
  function TakeWhile(i: Cursor, f: char -> bool): (r: PResult<string>)
    ensures r.Ok?
    ensures IsRun(i.rest, f, r.value.1) && r.value.0 == i.Adv(|r.value.1|)
  {
    if i.Len() == 0 then Ok((i, ""))
    else match Position(i.rest, Rejects(f))
      case Some(k) => Ok((i.Adv(k), i.rest[..k]))
      case None => Ok((i.Adv(i.Len()), i.rest[..i.Len()]))
  }

  /** A second `take_while` right after the first captures nothing and stays put. */
  lemma TakeWhileIdempotent(i: Cursor, f: char -> bool)
    ensures var c := TakeWhile(i, f).value.0; TakeWhile(c, f) == Ok((c, ""))
  {
    var c := TakeWhile(i, f).value.0;
    var span := TakeWhile(c, f).value.1;
    RunUnique(c.rest, f, span, "");
  }

  /** `tag!`: consume exactly `t` when the input starts with it, otherwise `Next`. */
  function Tag(i: Cursor, t: string): (r: PResult<string>)
    ensures r.Ok? <==> i.StartsWith(t)
    ensures r.Ok? ==> r.value.1 == t && r.value.0.off == i.off + |t|
    ensures r.Ok? ==> r.value.0 == i.Adv(|t|)
    ensures r.Err? ==> r.error == Next
  {
    if i.StartsWith(t) then Ok((i.Adv(|t|), i.rest[..|t|])) else Err(Next)
  }

  /** `map_fail!`: every error becomes the fatal `Fail`; success passes through. */
  function MapFail<O>(r: PResult<O>): (m: PResult<O>)
    ensures m.Ok? <==> r.Ok?
    ensures r.Ok? ==> m == r
    ensures m.Err? ==> m.error == Fail
  {
    match r
    case Ok(v) => Ok(v)
    case Err(_) => Err(Fail)
  }

  /** Code points with the Unicode White_Space property (what Rust's `char::is_whitespace` accepts). */
  const WhiteSpaceCodePoints: set<int> :=
    {0x09, 0x0A, 0x0B, 0x0C, 0x0D, 0x20, 0x85, 0xA0, 0x1680,
     0x2000, 0x2001, 0x2002, 0x2003, 0x2004, 0x2005, 0x2006, 0x2007, 0x2008, 0x2009, 0x200A,
     0x2028, 0x2029, 0x202F, 0x205F, 0x3000}

  /** Left-to-right mark and right-to-left mark. */
  const DirectionMarks: set<int> := {0x200E, 0x200F}

  /** The scanner's insignificant chars: Unicode whitespace and the two direction marks. */
  predicate IsWs(c: char) {
    var n := c as int;
    || n == 0x20
    || 0x09 <= n <= 0x0D
    || (n > 0x7F && (n == 0x85 || n == 0xA0 || n == 0x1680 || 0x2000 <= n <= 0x200A
                     || n == 0x2028 || n == 0x2029 || n == 0x202F || n == 0x205F || n == 0x3000))
    || n == 0x200E || n == 0x200F
  }

  /** The range tests of `IsWs` accept exactly the listed code points. */
  lemma IsWsCodePoints(c: char)
    ensures IsWs(c) <==> (c as int) in WhiteSpaceCodePoints + DirectionMarks
  {
  }

  /** `ws`: the run of whitespace at the cursor. */
  function Ws(i: Cursor): (r: PResult<string>)
    ensures r.Ok?
    ensures IsRun(i.rest, IsWs, r.value.1) && r.value.0 == i.Adv(|r.value.1|)
  {
    TakeWhile(i, IsWs)
  }

  /** `skip_ws`: the cursor after the leading whitespace. */
  function SkipWs(input: Cursor): (r: Cursor)
    ensures r.Len() <= input.Len() && r == input.Adv(input.Len() - r.Len())
    ensures forall k | 0 <= k < input.Len() - r.Len() :: IsWs(input.rest[k])
    ensures r.IsEmpty() || !IsWs(r.rest[0])
  {
    match Ws(input)
    case Ok((rest, _)) => rest
    case Err(_) => input
  }

  /** Skipping whitespace twice is skipping it once. */
  lemma SkipWsIdempotent(i: Cursor)
    ensures SkipWs(SkipWs(i)) == SkipWs(i)
  {
  }

  /** The parser only ever moves forward within the same source: `off + len` is kept. */
  ghost predicate Consumes<O>(p: Parser<O>) {
    forall i: Cursor :: p(i).Ok? ==> p(i).value.0.Len() <= i.Len() && p(i).value.0 == i.Adv(i.Len() - p(i).value.0.Len())
  }

  lemma TagConsumes(t: string)
    ensures Consumes((i: Cursor) => Tag(i, t))
  {
  }

  lemma WsConsumes()
    ensures Consumes(Ws)
  {
  }

  /** `opt` of a forward-only parser is forward-only (on `None` it stays put). */
  lemma OptConsumes<O>(p: Parser<O>)
    requires Consumes(p)
    ensures Consumes((i: Cursor) => Opt(i, p))
  {
    forall i: Cursor
      ensures Opt(i, p).value.0 == i.Adv(i.Len() - Opt(i, p).value.0.Len())
    {
      if p(i).Err? {
        assert i.rest[0..] == i.rest;
      }
    }
  }

  /** Sequencing forward-only parsers is forward-only: the cursor invariant survives `do_parse`. */
  lemma DoParseConsumes<A, B>(p: Parser<A>, k: A -> Parser<B>)
    requires Consumes(p)
    requires forall a: A :: Consumes(k(a))
    ensures Consumes(Then(p, k))
  {
    forall i: Cursor | Then(p, k)(i).Ok?
      ensures Then(p, k)(i).value.0.Len() <= i.Len()
      ensures Then(p, k)(i).value.0 == i.Adv(i.Len() - Then(p, k)(i).value.0.Len())
    {
      var (i1, a) := p(i).value;
      var i2 := k(a)(i1).value.0;
      assert Consumes(k(a));
      AdvCompose(i, i.Len() - i1.Len(), i1.Len() - i2.Len());
    }
  }

  /** A block whose first step only returns a value is its continuation applied to that value. */
  lemma DoParseLeftIdentity<A, B>(i: Cursor, v: A, k: A -> Parser<B>)
    ensures DoParse(i, c => Done(c, v), k) == k(v)(i)
  {
  }

  /** A block whose last step only returns the bound value is its first step. */
  lemma DoParseRightIdentity<A>(i: Cursor, p: Parser<A>)
    ensures DoParse(i, p, (o: A) => (c: Cursor) => Done(c, o)) == p(i)
  {
  }

  /** Nested `do_parse` blocks behave as one flat block. */
  lemma DoParseAssociative<A, B, C>(i: Cursor, p: Parser<A>, k1: A -> Parser<B>, k2: B -> Parser<C>)
    ensures DoParse(i, Then(p, k1), k2) == DoParse(i, p, a => Then(k1(a), k2))
  {
  }

  /** A step after a failed step never runs: the first error is the result. */
  lemma DoParseShortCircuit<A, B>(i: Cursor, p: Parser<A>, k1: A -> Parser<B>, k2: A -> Parser<B>)
    requires p(i).Err?
    ensures DoParse(i, p, k1) == DoParse(i, p, k2) == Err(p(i).error)
  {
  }

  /** `opt` absorbs even a fatal error: wrapping with `map_fail` does not make it escalate. */
  lemma OptAbsorbsFail<O>(i: Cursor, p: Parser<O>)
    ensures Opt(i, (c: Cursor) => MapFail(p(c))) == (if p(i).Ok? then Ok((p(i).value.0, Some(p(i).value.1))) else Ok((i, None)))
  {
  }
}
