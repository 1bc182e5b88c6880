/**
 * The `rescue` entry point: a comma-separated list of decimal u128 values is parsed,
 * checked to hold exactly four values, packed into bytes and hashed by the Rescue
 * permutation, whose 32-byte digest is returned.
 *
 * The byte packing (`utils::as_bytes`) and the permutation (`math::rescue::rescue`)
 * are not part of this model; they are passed in as functions. The two `debug_assert!`
 * checks of the source become error results here; a release build compiles them out.
 */
module RescueAdapter {
  import opened Results
  import opened Text
  import opened Decimal

  /** Number of u128 values the hash input must hold. */
  const ARITY: nat := 4
  /** Length in bytes of the digest the permutation must return. */
  const DIGEST_LENGTH: nat := 32
  const SEPARATOR: char := ','

  type Byte = bv8

  /** Why a call aborts: the `unwrap` of a token's parse, or one of the two debug assertions. */
  datatype RescueError =
    | ParseFailure(index: nat, kind: IntErrorKind)
    | InvalidArity(count: nat)
    | InvalidDigestLength(length: nat)

  /**
   * `tokens.iter().map(|t| t.parse::<u128>().unwrap()).collect()`: every token parsed in
   * order; the first token that fails stops the whole call.
   */
  function ParseAll(tokens: seq<string>, parse: string -> Result<U128, IntErrorKind>): (r: Result<seq<U128>, RescueError>)
    ensures r.Ok? <==> forall i :: 0 <= i < |tokens| ==> parse(tokens[i]).Ok?
    ensures r.Ok? ==> |r.value| == |tokens|
    ensures r.Ok? ==> forall i :: 0 <= i < |tokens| ==> parse(tokens[i]) == Ok(r.value[i])
    ensures r.Err? ==> && r.error.ParseFailure?
                       && r.error.index < |tokens|
                       && parse(tokens[r.error.index]) == Err(r.error.kind)
                       && forall j :: 0 <= j < r.error.index ==> parse(tokens[j]).Ok?
  {
    if tokens == [] then Ok([])
    else
      match parse(tokens[0])
      case Err(kind) => Err(ParseFailure(0, kind))
      case Ok(v) =>
        var rest := tokens[1..];
        assert forall j :: 0 <= j < |rest| ==> rest[j] == tokens[j + 1];
        match ParseAll(rest, parse)
        case Err(e) => Err(ParseFailure(e.index + 1, e.kind))
        case Ok(vs) => Ok([v] + vs)
  }

  /** The values of the input string: none for the empty string, else one per comma-separated token. */
  function ParseValues(values: string): (r: Result<seq<U128>, RescueError>)
    ensures values == "" ==> r == Ok([])
    ensures r.Ok? && values != "" ==>
              && |r.value| == Occurrences(values, SEPARATOR) + 1
              && forall i :: 0 <= i < |r.value| ==>
                   IsU128Literal(Split(values, SEPARATOR)[i])
                   && r.value[i] == DecimalValue(Digits(Split(values, SEPARATOR)[i]))
    ensures r.Err? <==> values != "" && exists i :: 0 <= i < |Split(values, SEPARATOR)|
                                             && !IsU128Literal(Split(values, SEPARATOR)[i])
  {
    if |values| != 0 then
      var r := ParseAll(Split(values, SEPARATOR), ParseU128);
      assert r.Err? ==> !IsU128Literal(Split(values, SEPARATOR)[r.error.index]);
      r
    else Ok([])
  }

  /** The input holds exactly four comma-separated tokens, each a valid u128 literal. */
  predicate FourValidTokens(values: string) {
    && values != ""
    && Occurrences(values, SEPARATOR) + 1 == ARITY
    && forall i :: 0 <= i < ARITY ==> IsU128Literal(Split(values, SEPARATOR)[i])
  }

  /**
   * `rescue(values)`: parse, require four values, hash their byte packing, require a
   * 32-byte digest and return a copy of it.
   */
  function Rescue(values: string, asBytes: seq<U128> -> seq<Byte>, permute: seq<Byte> -> seq<Byte>)
    : (r: Result<seq<Byte>, RescueError>)
    ensures r.Ok? <==> FourValidTokens(values) && |permute(asBytes(ParseValues(values).value))| == DIGEST_LENGTH
    ensures r.Ok? ==> |r.value| == DIGEST_LENGTH
    ensures r.Ok? ==> r.value == permute(asBytes(ParseValues(values).value))
  {
    match ParseValues(values)
    case Err(e) =>
      FourTokensGiveFourValues(values);
      Err(e)
    case Ok(vs) =>
      if |vs| != ARITY then
        FourTokensGiveFourValues(values);
        Err(InvalidArity(|vs|))
      else
        FourValuesHaveFourTokens(values);
        var digest := permute(asBytes(vs));
        if |digest| != DIGEST_LENGTH then Err(InvalidDigestLength(|digest|))
        else Ok(digest)
  }

  /** Four parsed values come from exactly four tokens, each a valid u128 literal. */
  lemma FourValuesHaveFourTokens(values: string)
    requires ParseValues(values).Ok? && |ParseValues(values).value| == ARITY
    ensures FourValidTokens(values)
  {
    var r := ParseValues(values);
    assert values != "";
    var tokens := Split(values, SEPARATOR);
    forall i | 0 <= i < ARITY ensures IsU128Literal(tokens[i]) {
      assert IsU128Literal(tokens[i]) && r.value[i] == DecimalValue(Digits(tokens[i]));
    }
  }

  /** Four tokens that are all valid u128 literals parse to four values. */
  lemma FourTokensGiveFourValues(values: string)
    ensures FourValidTokens(values) ==> ParseValues(values).Ok? && |ParseValues(values).value| == ARITY
  {
    if FourValidTokens(values) {
      var r := ParseValues(values);
      assert r.Ok?;
      assert |r.value| == ARITY;
    }
  }

  /** The canonical decimal texts of `vs`, comma-separated. */
  function Render(vs: seq<U128>): (s: string)
  {
    Join(seq(|vs|, i requires 0 <= i < |vs| => ToDecimal(vs[i])), SEPARATOR)
  }

  /** Rendering values and parsing them back gives the same values. */
  lemma ParseRender(vs: seq<U128>)
    ensures ParseValues(Render(vs)) == Ok(vs)
  {
    var tokens := seq(|vs|, i requires 0 <= i < |vs| => ToDecimal(vs[i]));
    if vs != [] {
      forall i | 0 <= i < |tokens| ensures SEPARATOR !in tokens[i] {
        assert AllDigits(tokens[i]);
      }
      SplitJoin(tokens, SEPARATOR);
      assert tokens[0] != "";
      assert Render(vs) != "";
      forall i | 0 <= i < |tokens| ensures ParseU128(tokens[i]) == Ok(vs[i]) {
        ParseToDecimal(vs[i]);
      }
      var r := ParseAll(tokens, ParseU128);
      assert r.Ok?;
      assert r.value == vs;
    }
  }

  /** The empty string holds no value, so it fails the four-value check. */
  lemma RescueEmpty(asBytes: seq<U128> -> seq<Byte>, permute: seq<Byte> -> seq<Byte>)
    ensures Rescue("", asBytes, permute) == Err(InvalidArity(0))
  {
  }

  /** A wrong value count aborts before the permutation is consulted: the outcome does not depend on it. */
  lemma ArityCheckedBeforeHash(values: string, asBytes: seq<U128> -> seq<Byte>,
                               permute: seq<Byte> -> seq<Byte>, permute': seq<Byte> -> seq<Byte>)
    requires ParseValues(values).Ok? && |ParseValues(values).value| != ARITY
    ensures Rescue(values, asBytes, permute) == Rescue(values, asBytes, permute')
                                             == Err(InvalidArity(|ParseValues(values).value|))
  {
  }

  /** A failing token aborts with the index of the first failing token, before any hashing. */
  lemma ParseFailureBeforeHash(values: string, asBytes: seq<U128> -> seq<Byte>, permute: seq<Byte> -> seq<Byte>)
    requires ParseValues(values).Err?
    ensures Rescue(values, asBytes, permute) == Err(ParseValues(values).error)
    ensures Rescue(values, asBytes, permute).error.ParseFailure?
  {
  }

  /** Four valid values whose packing the permutation maps to a digest of the wrong length abort with that length. */
  lemma DigestLengthChecked(values: string, asBytes: seq<U128> -> seq<Byte>, permute: seq<Byte> -> seq<Byte>)
    requires ParseValues(values).Ok? && |ParseValues(values).value| == ARITY
    requires |permute(asBytes(ParseValues(values).value))| != DIGEST_LENGTH
    ensures Rescue(values, asBytes, permute)
         == Err(InvalidDigestLength(|permute(asBytes(ParseValues(values).value))|))
  {
  }

  /** Four rendered values hash to the permutation of their byte packing. */
  lemma RescueRendered(vs: seq<U128>, asBytes: seq<U128> -> seq<Byte>, permute: seq<Byte> -> seq<Byte>)
    requires |vs| == ARITY
    requires |permute(asBytes(vs))| == DIGEST_LENGTH
    ensures Rescue(Render(vs), asBytes, permute) == Ok(permute(asBytes(vs)))
  {
    ParseRender(vs);
  }

  /** A trailing comma leaves an empty last token, which cannot be parsed. */
  lemma TrailingCommaFails(values: string)
    ensures ParseValues(values + [SEPARATOR]).Err?
  {
    SplitConcat(values, "", SEPARATOR);
    assert values + [SEPARATOR] + "" == values + [SEPARATOR];
    var tokens := Split(values + [SEPARATOR], SEPARATOR);
    assert !IsU128Literal(tokens[|tokens| - 1]);
  }

  /** An empty token between two commas cannot be parsed either. */
  lemma DoubleCommaFails(before: string, after: string)
    ensures ParseValues(before + [SEPARATOR, SEPARATOR] + after).Err?
  {
    var s := before + [SEPARATOR, SEPARATOR] + after;
    assert s == before + [SEPARATOR] + ([SEPARATOR] + after);
    SplitConcat(before, [SEPARATOR] + after, SEPARATOR);
    assert ([SEPARATOR] + after)[1..] == after;
    var tokens := Split(s, SEPARATOR);
    assert tokens[|Split(before, SEPARATOR)|] == "";
  }

  /** The input "1,2,3,4" parses to the values 1, 2, 3 and 4. */
  lemma ExampleOneToFour()
    ensures ParseValues("1,2,3,4") == Ok([1, 2, 3, 4])
  {
    var vs: seq<U128> := [1, 2, 3, 4];
    RenderOneToFour();
    ParseRender(vs);
  }

  lemma RenderOneToFour()
    ensures Render([1, 2, 3, 4]) == "1,2,3,4"
  {
    var vs: seq<U128> := [1, 2, 3, 4];
    var tokens := seq(|vs|, i requires 0 <= i < |vs| => ToDecimal(vs[i]));
    assert tokens == ["1", "2", "3", "4"];
    assert tokens[1..] == ["2", "3", "4"] && tokens[2..] == ["3", "4"] && tokens[3..] == ["4"];
    assert Join(tokens[3..], SEPARATOR) == "4";
    assert Join(tokens[2..], SEPARATOR) == "3,4";
    assert Join(tokens[1..], SEPARATOR) == "2,3,4";
  }
}
