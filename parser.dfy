/** The state-threading parser combinators of the expression parser: a parser
    takes the current `State` and either succeeds with the state after what it
    consumed and an output, or fails with a state (`ParseResult`). */
module Parser {

  /** `u32`, the type of the line and column counters. */
  type U32 = x: int | 0 <= x < 0x1_0000_0000

  const U32_MODULUS: int := 0x1_0000_0000

  /** A position in a source file: the rest of the input, the current line
      and column, the indentation level and whether the line is still in its
      leading indentation. The input is a sequence of Unicode scalar values;
      its length in UTF-8 bytes is `ByteLen(input)`. */
  datatype State = State(input: string, line: U32, column: U32, indentCol: U32, isIndenting: bool)

  /** `Result<(State, Output), State>`. */
  datatype ParseResult<T> = Ok(next: State, output: T) | Err(state: State)

  /** `char::len_utf8`. */
  function Utf8Len(ch: char): (r: nat)
    ensures 1 <= r <= 4
  {
    var c := ch as int;
    if c < 0x80 then 1 else if c < 0x800 then 2 else if c < 0x1_0000 then 3 else 4
  }

  /** `str::len`: the length in UTF-8 bytes. */
  function ByteLen(s: string): (r: nat)
    ensures |s| <= r <= 4 * |s|
  {
    if s == [] then 0 else Utf8Len(s[0]) + ByteLen(s[1..])
  }

  lemma {:induction false} ByteLenConcat(a: string, b: string)
    ensures ByteLen(a + b) == ByteLen(a) + ByteLen(b)
  {
    if a != [] {
      assert (a + b)[0] == a[0];
      assert (a + b)[1..] == a[1..] + b;
      ByteLenConcat(a[1..], b);
    } else {
      assert a + b == b;
    }
  }

  /** Adding to a `u32` counter, wrapping as a release build does. */
  function AddU32(x: U32, n: nat): (r: U32)
    ensures (r - x - n) % U32_MODULUS == 0
  {
    (x + n) % U32_MODULUS
  }

  predicate StartsWith(s: string, prefix: string)
  {
    |prefix| <= |s| && s[..|prefix|] == prefix
  }

  /** `map`: run `p` and transform its output; the state it reaches and any
      failure are passed on untouched. */
  function Map<A, B>(p: State -> ParseResult<A>, t: A -> B, s: State): (r: ParseResult<B>)
    ensures r.Ok? <==> p(s).Ok?
    ensures r.Ok? ==> r.next == p(s).next && r.output == t(p(s).output)
    ensures r.Err? ==> r.state == p(s).state
  {
    match p(s)
    case Ok(next, out) => Ok(next, t(out))
    case Err(st) => Err(st)
  }

  /** `keyword`: consume `kw` when the input starts with it. Only the column
      moves, by the UTF-8 length of `kw`, which is why `kw` may not hold a
      newline. */
  function Keyword(kw: string, s: State): (r: ParseResult<()>)
    requires '\n' !in kw
    ensures r.Ok? <==> StartsWith(s.input, kw)
    ensures r.Ok? ==> kw + r.next.input == s.input
    ensures r.Ok? ==> r.next == s.(input := r.next.input, column := AddU32(s.column, ByteLen(kw)))
    ensures r.Err? ==> r.state == s
  {
    if StartsWith(s.input, kw) then
      assert s.input == kw + s.input[|kw|..];
      Ok(s.(input := s.input[|kw|..], column := AddU32(s.column, ByteLen(kw))), ())
    else
      Err(s)
  }

  /** `satisfies`: `p`'s success, kept only when its output passes `f`;
      otherwise a failure at the state `p` started from, even when `p`
      consumed input. */
  function Satisfies<A>(p: State -> ParseResult<A>, f: A -> bool, s: State): (r: ParseResult<A>)
    ensures r.Ok? <==> p(s).Ok? && f(p(s).output)
    ensures r.Ok? ==> r == p(s)
    ensures r.Err? ==> r.state == s
  {
    var res := p(s);
    if res.Ok? && f(res.output) then res else Err(s)
  }

  /** `any`: consume one character. A newline moves to the start of the next
      line; any other character leaves line and column as they were. */
  function Any(s: State): (r: ParseResult<char>)
    ensures r.Err? <==> s.input == []
    ensures r.Err? ==> r.state == s
    ensures r.Ok? ==> [r.output] + r.next.input == s.input
    ensures r.Ok? ==> ByteLen(s.input) == Utf8Len(r.output) + ByteLen(r.next.input)
    ensures r.Ok? && r.output == '\n' ==>
              r.next == s.(input := s.input[1..], line := AddU32(s.line, 1), column := 0)
    ensures r.Ok? && r.output != '\n' ==> r.next == s.(input := s.input[1..])
  {
    if s.input == [] then Err(s)
    else
      var ch := s.input[0];
      var next := s.(input := s.input[1..]);
      assert [ch] + next.input == s.input;
      if ch == '\n' then Ok(next.(line := AddU32(s.line, 1), column := 0), ch)
      else Ok(next, ch)
  }

  /** `char::is_whitespace`: the Unicode White_Space property. */
  predicate IsWhitespace(ch: char)
  {
    var c := ch as int;
    (0x09 <= c <= 0x0D) || c == 0x20 || c == 0x85 || c == 0xA0 || c == 0x1680
    || (0x2000 <= c <= 0x200A) || c == 0x2028 || c == 0x2029 || c == 0x202F
    || c == 0x205F || c == 0x3000
  }

  /** `whitespace`: `any`, restricted to whitespace characters. */
  function Whitespace(s: State): ParseResult<char>
  {
    Satisfies(Any, IsWhitespace, s)
  }

  /** `whitespace` succeeds exactly on input that starts with a whitespace
      character, moving the state as `any` does; on failure nothing moves. */
  lemma {:induction false} WhitespaceSpec(s: State)
    ensures Whitespace(s).Ok? <==> s.input != [] && IsWhitespace(s.input[0])
    ensures Whitespace(s).Ok? ==> Whitespace(s) == Any(s) && Whitespace(s).output == s.input[0]
    ensures Whitespace(s).Err? ==> Whitespace(s).state == s
  {
  }

  /** A newline is whitespace, so `whitespace` is how a parser moves to the
      next line. */
  lemma {:induction false} WhitespaceNewline(s: State)
    requires s.input != [] && s.input[0] == '\n'
    ensures Whitespace(s) == Ok(s.(input := s.input[1..], line := AddU32(s.line, 1), column := 0), '\n')
  {
  }

  /** `map` with the identity leaves a parser's result unchanged. */
  lemma {:induction false} MapIdentity<A>(p: State -> ParseResult<A>, s: State)
    ensures Map(p, x => x, s) == p(s)
  {
  }

  /** Mapping twice is mapping once with the composed transformation. */
  lemma {:induction false} MapCompose<A, B, C>(p: State -> ParseResult<A>, t: A -> B, u: B -> C, s: State)
    ensures Map(st => Map(p, t, st), u, s) == Map(p, x => u(t(x)), s)
  {
  }

  /** Restricting twice is restricting once by both predicates. */
  lemma {:induction false} SatisfiesBoth<A>(p: State -> ParseResult<A>, f: A -> bool, g: A -> bool, s: State)
    ensures Satisfies(st => Satisfies(p, f, st), g, s) == Satisfies(p, x => f(x) && g(x), s)
  {
  }

  /** Two keywords in a row consume the same input, and move the column as
      far, as the single keyword made of both. */
  lemma {:induction false} KeywordSequence(a: string, b: string, s: State)
    requires '\n' !in a && '\n' !in b
    requires Keyword(a, s).Ok?
    ensures '\n' !in a + b
    ensures Keyword(b, Keyword(a, s).next).Ok? <==> Keyword(a + b, s).Ok?
    ensures Keyword(b, Keyword(a, s).next).Ok? ==>
              Keyword(b, Keyword(a, s).next).next == Keyword(a + b, s).next
  {
    var s1 := Keyword(a, s).next;
    PrefixThenPrefix(s.input, a, b, s1.input);
    ByteLenConcat(a, b);
    if Keyword(b, s1).Ok? {
      var s2 := Keyword(b, s1).next;
      var s3 := Keyword(a + b, s).next;
      assert (a + b) + s3.input == s.input == a + (b + s2.input);
      assert s3.input == s2.input;
      ColumnWrap(s.column, ByteLen(a), ByteLen(b));
      assert s2.column == s3.column;
      assert s2.line == s3.line && s2.indentCol == s3.indentCol && s2.isIndenting == s3.isIndenting;
    }
  }

  /** After a prefix `a`, the rest starts with `b` exactly when the whole
      starts with `a + b`. */
  lemma {:induction false} PrefixThenPrefix(x: string, a: string, b: string, rest: string)
    requires x == a + rest
    ensures StartsWith(rest, b) <==> StartsWith(x, a + b)
  {
    if StartsWith(rest, b) {
      assert rest == b + rest[|b|..];
      assert x == (a + b) + rest[|b|..];
    }
    if StartsWith(x, a + b) {
      assert x[..|a + b|] == a + b;
      assert rest == x[|a|..];
      assert rest[..|b|] == x[|a|..|a| + |b|] == (a + b)[|a|..];
    }
  }

  lemma {:induction false} ColumnWrap(x: U32, m: nat, n: nat)
    ensures AddU32(AddU32(x, m), n) == AddU32(x, m + n)
  {
    var y := (x + m) % U32_MODULUS;
    var q := (x + m) / U32_MODULUS;
    assert x + m + n == y + n + q * U32_MODULUS;
    ModAddMultiple(y + n, q);
  }

  lemma {:induction false} ModAddMultiple(v: nat, q: int)
    requires v + q * U32_MODULUS >= 0
    ensures (v + q * U32_MODULUS) % U32_MODULUS == v % U32_MODULUS
  {
  }
}
