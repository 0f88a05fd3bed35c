/**
 * Literals parsed from filter text (`RhsValue`, `RhsValues`), the comparison
 * of a runtime value with a literal, and the brace-list lexer.  The per-kind
 * comparators and item lexers are not part of this model: they are passed in
 * as functions (`Comparators`, `Lexers`).
 */
module Literals {
  import opened Wrappers
  import opened Types

  /** An address range of an `in { ... }` list; its membership test is not modelled. */
  datatype IpRange = IpRange(first: IpAddr, last: IpAddr)

  /** Rust's `RangeInclusive<i32>`. */
  datatype IntRange = IntRange(start: Int32, end: Int32)

  /**
   * A single literal.  Booleans and maps have no literal syntax: their
   * variants hold an uninhabited type in the source, so they have no
   * constructor here.
   */
  datatype RhsValue = Ip(addr: IpAddr) | Bytes(bytes: seq<bv8>) | Int(i: Int32)
  {
    /** `GetType for RhsValue`: the kind of the literal, never `Bool` or a map. */
    function GetType(): (t: Type)
      ensures !t.Bool? && !t.Map?
      ensures this.Ip? <==> t == Type.Ip
      ensures this.Bytes? <==> t == Type.Bytes
      ensures this.Int? <==> t == Type.Int
    {
      match this
      case Ip(_) => Type.Ip
      case Bytes(_) => Type.Bytes
      case Int(_) => Type.Int
    }
  }

  /**
   * A literal list.  The Bool and Map variants hold a vector of an
   * uninhabited type, which can only be empty, so they carry nothing.
   */
  datatype RhsValues =
    | Ip(ranges: seq<IpRange>)
    | Bytes(items: seq<seq<bv8>>)
    | Int(intRanges: seq<IntRange>)
    | Bool
    | Map

  datatype Ordering = Less | Equal | Greater

  /** The per-kind `strict_partial_cmp` of addresses, byte strings and integers. */
  datatype Comparators = Comparators(
    ip: (IpAddr, IpAddr) -> Option<Ordering>,
    bytes: (seq<bv8>, seq<bv8>) -> Option<Ordering>,
    integer: (Int32, Int32) -> Option<Ordering>)

  /**
   * `PartialOrd<RhsValue> for LhsValue`: the per-kind comparator when both
   * sides have the same kind, and unordered (never an error) otherwise.
   */
  function PartialCmp(lhs: LhsValue, rhs: RhsValue, cmp: Comparators): (r: Option<Ordering>)
    ensures lhs.GetType() != rhs.GetType() ==> r == None
    ensures lhs.Ip? && rhs.Ip? ==> r == cmp.ip(lhs.addr, rhs.addr)
    ensures lhs.Bytes? && rhs.Bytes? ==> r == cmp.bytes(lhs.bytes, rhs.bytes)
    ensures lhs.Int? && rhs.Int? ==> r == cmp.integer(lhs.i, rhs.i)
  {
    match (lhs, rhs)
    case (Ip(l), Ip(r)) => cmp.ip(l, r)
    case (Bytes(l), Bytes(r)) => cmp.bytes(l, r)
    case (Int(l), Int(r)) => cmp.integer(l, r)
    case _ => None
  }

  /** `PartialEq<RhsValue> for LhsValue`: equal exactly when the comparison says `Equal`. */
  function Eq(lhs: LhsValue, rhs: RhsValue, cmp: Comparators): (b: bool)
    ensures b <==> PartialCmp(lhs, rhs, cmp) == Some(Equal)
    ensures b ==> lhs.GetType() == rhs.GetType()
  {
    PartialCmp(lhs, rhs, cmp) == Some(Equal)
  }

  /** `From<&RhsValue> for LhsValue`: the runtime value holding the literal's data. */
  function FromRhs(rhs: RhsValue): (v: LhsValue)
    ensures v.GetType() == rhs.GetType()
    ensures rhs.Ip? ==> v == LhsValue.Ip(rhs.addr)
    ensures rhs.Bytes? ==> v == LhsValue.Bytes(rhs.bytes)
    ensures rhs.Int? ==> v == LhsValue.Int(rhs.i)
  {
    match rhs
    case Ip(addr) => LhsValue.Ip(addr)
    case Bytes(bytes) => LhsValue.Bytes(bytes)
    case Int(i) => LhsValue.Int(i)
  }

  /** Comparators that find every value equal to itself. */
  ghost predicate Reflexive(cmp: Comparators)
  {
    && (forall a :: cmp.ip(a, a) == Some(Equal))
    && (forall b :: cmp.bytes(b, b) == Some(Equal))
    && (forall i :: cmp.integer(i, i) == Some(Equal))
  }

  /** A literal converted to a runtime value compares equal to itself under reflexive comparators. */
  lemma FromRhsEqualsItself(rhs: RhsValue, cmp: Comparators)
    requires Reflexive(cmp)
    ensures Eq(FromRhs(rhs), rhs, cmp)
  {
  }

  /** Values of different kinds are never equal, whatever the comparators say. */
  lemma DifferentKindsNeverEqual(lhs: LhsValue, rhs: RhsValue, cmp: Comparators)
    requires lhs.GetType() != rhs.GetType()
    ensures !Eq(lhs, rhs, cmp) && PartialCmp(lhs, rhs, cmp) == None
  {
  }

  // ---------------------------------------------------------------------------
  // Lexing

  datatype LexErrorKind = ExpectedLiteral(literal: string) | ItemError(code: nat)

  /** A lexing error and the input at which it happened. */
  datatype LexError = LexError(kind: LexErrorKind, at: string)

  /** What a lexer returns: the item and the rest of the input, or an error. */
  type LexResult<T> = Result<(T, string), LexError>

  /** `expect`: consumes `literal` from the front of `input`. */
  function Expect(input: string, literal: string): (r: Result<string, LexError>)
    ensures r.Ok? <==> literal <= input
    ensures r.Ok? ==> input == literal + r.value
    ensures r.Err? ==> r.error == LexError(ExpectedLiteral(literal), input)
  {
    if literal <= input then Ok(input[|literal|..])
    else Err(LexError(ExpectedLiteral(literal), input))
  }

  predicate IsSpace(c: char)
  {
    c == ' ' || c == '\t' || c == '\n' || c == '\r' || c == '\U{000C}'
  }

  /** `skip_space`: drops the leading whitespace of `input`. */
  function SkipSpace(input: string): (r: string)
    ensures |r| <= |input| && r == input[|input| - |r|..]
    ensures r == [] || !IsSpace(r[0])
  {
    if input != [] && IsSpace(input[0]) then SkipSpace(input[1..]) else input
  }

  /** Everything `skip_space` drops is whitespace. */
  lemma {:induction false} SkipSpaceDropsOnlySpaces(input: string)
    ensures forall k :: 0 <= k < |input| - |SkipSpace(input)| ==> IsSpace(input[k])
    decreases |input|
  {
    if input != [] && IsSpace(input[0]) {
      SkipSpaceDropsOnlySpaces(input[1..]);
    }
  }

  /** `r` is a strictly shorter tail of `s`. */
  predicate IsProperSuffix(r: string, s: string)
  {
    |r| < |s| && r == s[|s| - |r|..]
  }

  /** A tail of a tail is a tail, and keeps the character in front of it. */
  lemma SuffixChain(rest: string, mid: string, input: string)
    requires IsProperSuffix(rest, mid) && mid[|mid| - |rest| - 1] == '}'
    requires |mid| <= |input| && mid == input[|input| - |mid|..]
    ensures IsProperSuffix(rest, input) && input[|input| - |rest| - 1] == '}'
  {
    var d := |input| - |mid|;
    assert mid[|mid| - |rest| - 1] == input[d + |mid| - |rest| - 1];
    assert input[|input| - |rest|..] == mid[|mid| - |rest|..];
  }

  /** An item lexer that consumes input whenever it succeeds. */
  ghost predicate Consumes<T>(lex: string -> LexResult<T>)
  {
    forall s :: lex(s).Ok? ==> IsProperSuffix(lex(s).value.1, s)
  }

  /** Puts `done` in front of the items of a successful result. */
  function Prepend<T>(done: seq<T>, r: LexResult<seq<T>>): (p: LexResult<seq<T>>)
    ensures p.Ok? <==> r.Ok?
    ensures p.Ok? ==> p.value == (done + r.value.0, r.value.1)
    ensures p.Err? ==> p == r
  {
    match r
    case Ok((items, rest)) => Ok((done + items, rest))
    case Err(e) => Err(e)
  }

  lemma PrependTwice<T>(a: seq<T>, b: seq<T>, r: LexResult<seq<T>>)
    ensures Prepend(a, Prepend(b, r)) == Prepend(a + b, r)
    ensures Prepend([], r) == r
  {
    if r.Ok? {
      assert a + (b + r.value.0) == (a + b) + r.value.0;
      assert [] + r.value.0 == r.value.0;
    }
  }

  /**
   * The items of a brace list after its `{`: skip spaces, stop at `}`,
   * otherwise lex one item and continue.
   */
  ghost function LexItems<T>(lex: string -> LexResult<T>, input: string): LexResult<seq<T>>
    requires Consumes(lex)
    decreases |input|
  {
    var s := SkipSpace(input);
    if "}" <= s then Ok(([], s[1..]))
    else
      var item := lex(s);
      if item.Err? then Err(item.error)
      else Prepend([item.value.0], LexItems(lex, item.value.1))
  }

  /** The whole brace list, `{` included. */
  ghost function LexList<T>(lex: string -> LexResult<T>, input: string): LexResult<seq<T>>
    requires Consumes(lex)
  {
    var afterBrace := Expect(input, "{");
    if afterBrace.Err? then Err(afterBrace.error) else LexItems(lex, afterBrace.value)
  }

  /** `lex_rhs_values`: lexes `{ item item ... }`, pushing each item in turn. */
  method LexRhsValues<T>(lex: string -> LexResult<T>, input: string) returns (r: LexResult<seq<T>>)
    requires Consumes(lex)
    ensures r == LexList(lex, input)
  {
    var afterBrace := Expect(input, "{");
    if afterBrace.Err? {
      return Err(afterBrace.error);
    }
    var rest := afterBrace.value;
    assert LexList(lex, input) == LexItems(lex, rest);
    var res: seq<T> := [];
    PrependTwice(res, res, LexItems(lex, rest));
    while true
      invariant LexList(lex, input) == Prepend(res, LexItems(lex, rest))
      decreases |rest|
    {
      LexItemsStep(lex, rest);
      rest := SkipSpace(rest);
      var closed := Expect(rest, "}");
      if closed.Ok? {
        assert res + [] == res;
        return Ok((res, closed.value));
      }
      var item := lex(rest);
      if item.Err? {
        return Err(item.error);
      }
      PrependTwice(res, [item.value.0], LexItems(lex, item.value.1));
      res := res + [item.value.0];
      rest := item.value.1;
    }
  }

  /** One round of the list loop, as `LexItems` takes it. */
  lemma LexItemsStep<T>(lex: string -> LexResult<T>, input: string)
    requires Consumes(lex)
    ensures var s := SkipSpace(input);
      && ("}" <= s ==> LexItems(lex, input) == Ok(([], s[1..])))
      && (!("}" <= s) && lex(s).Err? ==> LexItems(lex, input) == Err(lex(s).error))
      && (!("}" <= s) && lex(s).Ok? ==>
            |lex(s).value.1| < |input| &&
            LexItems(lex, input) == Prepend([lex(s).value.0], LexItems(lex, lex(s).value.1)))
  {
  }

  /** Items lexed after the `{`: on success the rest follows a `}` and is a tail of the input. */
  lemma {:induction false} LexItemsEndsAtBrace<T>(lex: string -> LexResult<T>, input: string)
    requires Consumes(lex)
    requires LexItems(lex, input).Ok?
    ensures var rest := LexItems(lex, input).value.1;
      && IsProperSuffix(rest, input)
      && input[|input| - |rest| - 1] == '}'
    decreases |input|
  {
    var s := SkipSpace(input);
    LexItemsStep(lex, input);
    if "}" <= s {
      assert LexItems(lex, input).value.1 == s[1..];
      SuffixChain(s[1..], s, input);
    } else {
      var after := lex(s).value.1;
      assert IsProperSuffix(after, s);
      LexItemsEndsAtBrace(lex, after);
      var rest := LexItems(lex, after).value.1;
      assert LexItems(lex, input).value.1 == rest;
      SuffixChain(rest, after, s);
      SuffixChain(rest, s, input);
    }
  }

  /** A list with no `}` in it never ends: the lexer returns only once it sees the closing brace. */
  lemma {:induction false} LexItemsNeedsClosingBrace<T>(lex: string -> LexResult<T>, input: string)
    requires Consumes(lex)
    requires '}' !in input
    ensures LexItems(lex, input).Err?
    decreases |input|
  {
    var s := SkipSpace(input);
    assert '}' !in s;
    if lex(s).Ok? {
      var rest := lex(s).value.1;
      assert forall c :: c in rest ==> c in s;
      LexItemsNeedsClosingBrace(lex, rest);
    }
  }

  /** `lex_rhs_values` fails unless the input starts with `{`. */
  lemma LexListNeedsOpeningBrace<T>(lex: string -> LexResult<T>, input: string)
    requires Consumes(lex)
    requires LexList(lex, input).Ok?
    ensures |input| > 0 && input[0] == '{'
  {
  }

  /** On success the list was closed by a `}` and the rest is what follows it. */
  lemma LexListEndsAtBrace<T>(lex: string -> LexResult<T>, input: string)
    requires Consumes(lex)
    requires LexList(lex, input).Ok?
    ensures var rest := LexList(lex, input).value.1;
      IsProperSuffix(rest, input) && input[|input| - |rest| - 1] == '}'
  {
    var afterBrace := Expect(input, "{").value;
    assert afterBrace == input[1..];
    assert LexList(lex, input) == LexItems(lex, afterBrace);
    LexItemsEndsAtBrace(lex, afterBrace);
    var rest := LexItems(lex, afterBrace).value.1;
    assert IsProperSuffix(rest, afterBrace) && afterBrace[|afterBrace| - |rest| - 1] == '}';
    SuffixChain(rest, afterBrace, input);
  }

  /** An input without `}` is an unterminated list. */
  lemma LexListNeedsClosingBrace<T>(lex: string -> LexResult<T>, input: string)
    requires Consumes(lex)
    requires '}' !in input
    ensures LexList(lex, input).Err?
  {
    var afterBrace := Expect(input, "{");
    if afterBrace.Ok? {
      assert input == "{" + afterBrace.value;
      assert '}' !in afterBrace.value;
      LexItemsNeedsClosingBrace(lex, afterBrace.value);
    }
  }

  /** The items come in source order: the first one is what the lexer reads right after the spaces. */
  lemma LexItemsFirst<T>(lex: string -> LexResult<T>, input: string)
    requires Consumes(lex)
    requires LexItems(lex, input).Ok? && LexItems(lex, input).value.0 != []
    ensures var s := SkipSpace(input);
      && !("}" <= s)
      && lex(s).Ok?
      && LexItems(lex, input).value.0[0] == lex(s).value.0
      && Prepend([lex(s).value.0], LexItems(lex, lex(s).value.1)) == LexItems(lex, input)
  {
  }

  /** The lexers of single literals, of list items, and the always-failing ones of the uninhabited kinds. */
  datatype Lexers = Lexers(
    ip: string -> LexResult<IpAddr>,
    bytes: string -> LexResult<seq<bv8>>,
    integer: string -> LexResult<Int32>,
    ipRange: string -> LexResult<IpRange>,
    intRange: string -> LexResult<IntRange>,
    uninhabitedBool: string -> LexError,
    uninhabitedMap: string -> LexError)

  /** All list-item lexers consume input when they succeed. */
  ghost predicate ListLexersConsume(lexers: Lexers)
  {
    && Consumes(lexers.ipRange)
    && Consumes(lexers.bytes)
    && Consumes(lexers.intRange)
  }

  /** The lexer of an uninhabited type: it can only fail. */
  function Uninhabited(fail: string -> LexError): (lex: string -> LexResult<()>)
    ensures forall s :: lex(s).Err?
  {
    s => Err(fail(s))
  }

  /** Lifts an item lexer's result into a literal. */
  function MapLexed<T>(r: LexResult<T>, wrap: T -> RhsValue): (out: LexResult<RhsValue>)
    ensures out.Ok? <==> r.Ok?
    ensures out.Ok? ==> out.value == (wrap(r.value.0), r.value.1)
    ensures out.Err? ==> out.error == r.error
  {
    match r
    case Ok((v, rest)) => Ok((wrap(v), rest))
    case Err(e) => Err(e)
  }

  /**
   * `LexWith<Type> for RhsValue`: dispatches to the lexer of the kind; the
   * boolean and map kinds have no literal and always fail.
   */
  function LexRhsValue(input: string, ty: Type, lexers: Lexers): (r: LexResult<RhsValue>)
    ensures r.Ok? ==> r.value.0.GetType() == ty
    ensures ty.Bool? ==> r == Err(lexers.uninhabitedBool(input))
    ensures ty.Map? ==> r == Err(lexers.uninhabitedMap(input))
    ensures ty.Ip? ==> (r.Ok? <==> lexers.ip(input).Ok?)
    ensures ty.Ip? && r.Ok? ==> r.value == (RhsValue.Ip(lexers.ip(input).value.0), lexers.ip(input).value.1)
    ensures ty.Ip? && r.Err? ==> r.error == lexers.ip(input).error
    ensures ty.Bytes? ==> (r.Ok? <==> lexers.bytes(input).Ok?)
    ensures ty.Bytes? && r.Ok? ==> r.value == (RhsValue.Bytes(lexers.bytes(input).value.0), lexers.bytes(input).value.1)
    ensures ty.Bytes? && r.Err? ==> r.error == lexers.bytes(input).error
    ensures ty.Int? ==> (r.Ok? <==> lexers.integer(input).Ok?)
    ensures ty.Int? && r.Ok? ==> r.value == (RhsValue.Int(lexers.integer(input).value.0), lexers.integer(input).value.1)
    ensures ty.Int? && r.Err? ==> r.error == lexers.integer(input).error
  {
    match ty
    case Ip => MapLexed(lexers.ip(input), a => RhsValue.Ip(a))
    case Bytes => MapLexed(lexers.bytes(input), b => RhsValue.Bytes(b))
    case Int => MapLexed(lexers.integer(input), i => RhsValue.Int(i))
    case Bool => Err(lexers.uninhabitedBool(input))
    case Map(_) => Err(lexers.uninhabitedMap(input))
  }

  /**
   * `LexWith<Type> for RhsValues`: lexes a brace list of the kind's items.
   * For the boolean and map kinds only the empty list `{}` lexes.
   */
  method LexRhsValuesWith(input: string, ty: Type, lexers: Lexers) returns (r: LexResult<RhsValues>)
    requires ListLexersConsume(lexers)
    ensures ty.Ip? ==> r == (match LexList(lexers.ipRange, input)
      case Ok((items, rest)) => Ok((RhsValues.Ip(items), rest)) case Err(e) => Err(e))
    ensures ty.Bytes? ==> r == (match LexList(lexers.bytes, input)
      case Ok((items, rest)) => Ok((RhsValues.Bytes(items), rest)) case Err(e) => Err(e))
    ensures ty.Int? ==> r == (match LexList(lexers.intRange, input)
      case Ok((items, rest)) => Ok((RhsValues.Int(items), rest)) case Err(e) => Err(e))
    ensures ty.Bool? ==> r == (match LexList(Uninhabited(lexers.uninhabitedBool), input)
      case Ok((_, rest)) => Ok((RhsValues.Bool, rest)) case Err(e) => Err(e))
    ensures ty.Map? ==> r == (match LexList(Uninhabited(lexers.uninhabitedMap), input)
      case Ok((_, rest)) => Ok((RhsValues.Map, rest)) case Err(e) => Err(e))
  {
    match ty {
      case Ip =>
        var l := LexRhsValues(lexers.ipRange, input);
        r := if l.Ok? then Ok((RhsValues.Ip(l.value.0), l.value.1)) else Err(l.error);
      case Bytes =>
        var l := LexRhsValues(lexers.bytes, input);
        r := if l.Ok? then Ok((RhsValues.Bytes(l.value.0), l.value.1)) else Err(l.error);
      case Int =>
        var l := LexRhsValues(lexers.intRange, input);
        r := if l.Ok? then Ok((RhsValues.Int(l.value.0), l.value.1)) else Err(l.error);
      case Bool =>
        var l := LexRhsValues(Uninhabited(lexers.uninhabitedBool), input);
        r := if l.Ok? then Ok((RhsValues.Bool, l.value.1)) else Err(l.error);
      case Map(_) =>
        var l := LexRhsValues(Uninhabited(lexers.uninhabitedMap), input);
        r := if l.Ok? then Ok((RhsValues.Map, l.value.1)) else Err(l.error);
    }
  }

  /** With a lexer that always fails, a list lexes exactly when `}` follows the `{` and spaces, and it is empty. */
  lemma UninhabitedListIsEmpty(fail: string -> LexError, input: string)
    ensures var r := LexList(Uninhabited(fail), input);
      && (r.Ok? <==> "{" <= input && "}" <= SkipSpace(input[1..]))
      && (r.Ok? ==> r.value.0 == [] && r.value.1 == SkipSpace(input[1..])[1..])
  {
  }

  /** Whether a list of an uninhabited kind lexes does not depend on which failing lexer is used. */
  lemma UninhabitedListsAgree(f: string -> LexError, g: string -> LexError, input: string)
    ensures LexList(Uninhabited(f), input).Ok? <==> LexList(Uninhabited(g), input).Ok?
  {
    UninhabitedListIsEmpty(f, input);
    UninhabitedListIsEmpty(g, input);
  }
}
