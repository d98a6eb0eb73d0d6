/**
 * The two value checkers of the command line: the code-point range parser
 * (`range_checker`) and the size check (`size_checker`).  Every failure of
 * `range_checker` is a `ValueError` in the program; `RangeError` only names
 * which test raised it.
 */
module Args {
  import opened Wrappers
  import opened Numerals

  datatype RangeError =
    | BadCharacter    // a character outside [0-9a-fxA-F,-]
    | BadNumber       // a token `int()` cannot read
    | BadRange        // a token with more than one '-'
    | ReversedRange   // a sub-range whose start exceeds its end

  datatype SizeError = InvalidSize

  /** The characters the range expression may contain. */
  predicate Allowed(c: char)
  {
    ('0' <= c <= '9') || ('a' <= c <= 'f') || ('A' <= c <= 'F') || c == 'x' || c == ',' || c == '-'
  }

  /** No character of `s` is foreign: the `re.findall` of the source finds nothing. */
  predicate AllAllowed(s: string)
  {
    s == [] || (Allowed(s[0]) && AllAllowed(s[1..]))
  }

  lemma {:induction false} AllAllowedMeans(s: string)
    ensures AllAllowed(s) <==> forall i :: 0 <= i < |s| ==> Allowed(s[i])
  {
    if s != [] {
      AllAllowedMeans(s[1..]);
      assert forall i :: 1 <= i < |s| ==> s[i] == s[1..][i - 1];
    }
  }

  lemma {:induction false} AllAllowedConcat(a: string, b: string)
    requires AllAllowed(a) && AllAllowed(b)
    ensures AllAllowed(a + b)
  {
    if a == [] {
      assert a + b == b;
    } else {
      assert (a + b)[0] == a[0];
      assert (a + b)[1..] == a[1..] + b;
      AllAllowedConcat(a[1..], b);
    }
  }

  // ---------------------------------------------------------------------------
  // str.rstrip / str.lstrip with one character, str.split with one separator

  function StripRight(s: string, c: char): (r: string)
    ensures |r| <= |s| && r == s[..|r|]
    ensures r == [] || r[|r| - 1] != c
    ensures forall k :: |r| <= k < |s| ==> s[k] == c
  {
    if s != [] && s[|s| - 1] == c then StripRight(s[..|s| - 1], c) else s
  }

  function StripLeft(s: string, c: char): (r: string)
    ensures |r| <= |s| && r == s[|s| - |r|..]
    ensures r == [] || r[0] != c
    ensures forall k :: 0 <= k < |s| - |r| ==> s[k] == c
  {
    if s != [] && s[0] == c then StripLeft(s[1..], c) else s
  }

  /** The four strips `range_checker` applies, in its order. */
  function StripEnds(s: string): (r: string)
    ensures |r| <= |s|
    ensures r == [] || (r[0] != ',' && r[|r| - 1] != ',')
  {
    StripLeft(StripLeft(StripRight(StripRight(s, '-'), ','), '-'), ',')
  }

  /** Text that neither starts nor ends with '-' or ',' is left as it is. */
  lemma StripEndsKeeps(s: string)
    requires s != [] && s[0] != '-' && s[0] != ',' && s[|s| - 1] != '-' && s[|s| - 1] != ','
    ensures StripEnds(s) == s
  {
  }

  /** `s.split(d)`: the pieces between the separators, at least one. */
  function Split(s: string, d: char): (parts: seq<string>)
    ensures |parts| >= 1
    ensures forall k :: 0 <= k < |parts| ==> d !in parts[k]
    decreases |s|
  {
    if d !in s then [s] else var i := FirstIndex(s, d); [s[..i]] + Split(s[i + 1..], d)
  }

  /** `d.join(parts)`, the inverse of `Split`. */
  function Join(parts: seq<string>, d: char): string
  {
    if |parts| <= 1 then (if parts == [] then [] else parts[0]) else parts[0] + [d] + Join(parts[1..], d)
  }

  lemma {:induction false} SplitJoin(s: string, d: char)
    ensures Join(Split(s, d), d) == s
    decreases |s|
  {
    if d in s {
      var i := FirstIndex(s, d);
      SplitJoin(s[i + 1..], d);
      assert s == s[..i] + [d] + s[i + 1..];
    }
  }

  // ---------------------------------------------------------------------------
  // Numbers

  /** `str_to_int`: a token starting with "0x" is read in base 16, any other in base 10. */
  function StrToInt(v: string): (r: Option<nat>)
    ensures r.Some? && |v| >= 2 && v[..2] == "0x" ==> |v| > 2 && AllDigits(v[2..], 16) && r.value == NumeralValue(v[2..], 16)
    ensures r.Some? && !(|v| >= 2 && v[..2] == "0x") ==> v != [] && AllDigits(v, 10) && r.value == NumeralValue(v, 10)
    ensures |v| > 2 && v[..2] == "0x" && AllDigits(v[2..], 16) ==> r == Some(NumeralValue(v[2..], 16))
    ensures v != [] && AllDigits(v, 10) ==> r == Some(NumeralValue(v, 10))
  {
    if |v| >= 2 && v[..2] == "0x" then
      assert v[1] == 'x' && !IsDigit(v[1], 10);
      if |v| > 2 && AllDigits(v[2..], 16) then Some(NumeralValue(v[2..], 16)) else None
    else if v != [] && AllDigits(v, 10) then Some(NumeralValue(v, 10))
    else None
  }

  /** Decimal text and "0x"-prefixed hex text of a number read back as that number. */
  lemma StrToIntReadsDecimal(n: nat)
    ensures StrToInt(DecimalText(n)) == Some(n)
  {
    var t := DecimalText(n);
    TextRoundTrip(n, 10);
    assert IsDigit(t[0], 10);
    assert !(|t| >= 2 && t[..2] == "0x") by {
      if |t| >= 2 { assert IsDigit(t[1], 10); }
    }
  }

  lemma StrToIntReadsHex(n: nat)
    ensures StrToInt("0x" + Text(n, 16)) == Some(n)
  {
    var d := Text(n, 16);
    TextRoundTrip(n, 16);
    var h := "0x" + d;
    assert h[..2] == "0x" && h[2..] == d;
  }

  /** The inclusive interval `range(a, b + 1)`. */
  function Interval(a: int, b: int): (r: seq<int>)
    requires a <= b
    ensures |r| == b - a + 1
    ensures forall k :: 0 <= k < |r| ==> r[k] == a + k
  {
    seq(b - a + 1, k => a + k)
  }

  /** The values one comma-separated token contributes. */
  function ParseToken(t: string): (r: Result<seq<int>, RangeError>)
    ensures '-' !in t ==> (r.Ok? <==> StrToInt(t).Some?)
    ensures '-' !in t && StrToInt(t).Some? ==> r == Ok([StrToInt(t).value])
    ensures '-' !in t && StrToInt(t).None? ==> r == Err(BadNumber)
    ensures '-' in t && |Split(t, '-')| != 2 ==> r == Err(BadRange)
    ensures '-' in t && |Split(t, '-')| == 2 ==>
              var x1, x2 := StrToInt(Split(t, '-')[0]), StrToInt(Split(t, '-')[1]);
              (x1.None? || x2.None? ==> r == Err(BadNumber)) &&
              (x1.Some? && x2.Some? ==>
                 r == if x1.value > x2.value then Err(ReversedRange) else Ok(Interval(x1.value, x2.value)))
    ensures r.Ok? ==> |r.value| >= 1 && r.value[0] >= 0
    ensures r.Ok? ==> forall k :: 0 < k < |r.value| ==> r.value[k] == r.value[k - 1] + 1
  {
    if '-' in t then
      var rl := Split(t, '-');
      if |rl| == 2 then
        match StrToInt(rl[0])
        case None => Err(BadNumber)
        case Some(x1) =>
          match StrToInt(rl[1])
          case None => Err(BadNumber)
          case Some(x2) => if x1 > x2 then Err(ReversedRange) else Ok(Interval(x1, x2))
      else Err(BadRange)
    else
      match StrToInt(t)
      case None => Err(BadNumber)
      case Some(x) => Ok([x])
  }

  /** The values of all tokens in order, or the first token's error. */
  function ParseTokens(ts: seq<string>): Result<seq<int>, RangeError>
  {
    if ts == [] then Ok([])
    else
      match ParseTokens(ts[..|ts| - 1])
      case Err(e) => Err(e)
      case Ok(l) =>
        match ParseToken(ts[|ts| - 1])
        case Err(e) => Err(e)
        case Ok(v) => Ok(l + v)
  }

  /** Parsing one more token extends the values, or fails with that token's error. */
  lemma ParseTokensStep(ts: seq<string>, i: nat, l: seq<int>)
    requires i < |ts| && ParseTokens(ts[..i]) == Ok(l)
    ensures ParseToken(ts[i]).Ok? ==> ParseTokens(ts[..i + 1]) == Ok(l + ParseToken(ts[i]).value)
    ensures ParseToken(ts[i]).Err? ==> ParseTokens(ts[..i + 1]) == Err(ParseToken(ts[i]).error)
  {
    assert ts[..i + 1][..i] == ts[..i];
  }

  /** An error in a prefix of the tokens is the error of all of them. */
  lemma {:induction false} ParseTokensPrefixError(ts: seq<string>, i: nat)
    requires i <= |ts| && ParseTokens(ts[..i]).Err?
    ensures ParseTokens(ts) == ParseTokens(ts[..i])
    decreases |ts| - i
  {
    if i < |ts| {
      assert ts[..i + 1][..i] == ts[..i];
      ParseTokensPrefixError(ts, i + 1);
    } else {
      assert ts[..i] == ts;
    }
  }

  // ---------------------------------------------------------------------------
  // list(set(...)) followed by sort()

  predicate StrictlyIncreasing(s: seq<int>)
  {
    forall i, j :: 0 <= i < j < |s| ==> s[i] < s[j]
  }

  function Elems(s: seq<int>): set<int>
  {
    set x | x in s
  }

  /** A value below every element of an increasing sequence can go in front of it. */
  lemma Prepend(h: int, t: seq<int>)
    requires StrictlyIncreasing(t) && forall y :: y in Elems(t) ==> h < y
    ensures StrictlyIncreasing([h] + t) && Elems([h] + t) == {h} + Elems(t)
  {
    assert forall k :: 0 <= k < |t| ==> t[k] in Elems(t);
    assert forall k :: 1 <= k < |t| + 1 ==> ([h] + t)[k] == t[k - 1];
  }

  function Insert(s: seq<int>, x: int): (r: seq<int>)
    requires StrictlyIncreasing(s)
    ensures StrictlyIncreasing(r) && Elems(r) == Elems(s) + {x}
  {
    if s == [] then [x]
    else if x < s[0] then [x] + s
    else if x == s[0] then s
    else
      var t := Insert(s[1..], x);
      assert Elems(s) == {s[0]} + Elems(s[1..]);
      assert forall y :: y in Elems(s[1..]) ==> s[0] < y;
      Prepend(s[0], t);
      [s[0]] + t
  }

  /** The de-duplicated values of `l` in ascending order. */
  function SortedUnique(l: seq<int>): (r: seq<int>)
    ensures StrictlyIncreasing(r) && Elems(r) == Elems(l)
  {
    if l == [] then []
    else
      assert Elems(l) == Elems(l[..|l| - 1]) + {l[|l| - 1]} by {
        assert l == l[..|l| - 1] + [l[|l| - 1]];
      }
      Insert(SortedUnique(l[..|l| - 1]), l[|l| - 1])
  }

  lemma EmptyElems(s: seq<int>)
    ensures (Elems(s) == {}) == (s == [])
  {
    if s != [] {
      assert s[0] in Elems(s);
    }
  }

  /** A strictly increasing list is determined by its elements. */
  lemma {:induction false} StrictlyIncreasingUnique(a: seq<int>, b: seq<int>)
    requires StrictlyIncreasing(a) && StrictlyIncreasing(b) && Elems(a) == Elems(b)
    ensures a == b
  {
    EmptyElems(a);
    EmptyElems(b);
    if a != [] && b != [] {
      assert a[0] in Elems(b) && b[0] in Elems(a);
      assert a[0] == b[0];
      assert Elems(a[1..]) == Elems(a) - {a[0]} by {
        assert a == [a[0]] + a[1..];
        assert a[0] !in a[1..];
      }
      assert Elems(b[1..]) == Elems(b) - {b[0]} by {
        assert b == [b[0]] + b[1..];
        assert b[0] !in b[1..];
      }
      StrictlyIncreasingUnique(a[1..], b[1..]);
      assert a == [a[0]] + a[1..] && b == [b[0]] + b[1..];
    }
  }

  // ---------------------------------------------------------------------------
  // range_checker

  /** What `range_checker` returns for its argument (`None` when the option is absent). */
  function ParseRange(glyphRange: Option<string>): (r: Result<Option<seq<int>>, RangeError>)
    ensures glyphRange.None? <==> r == Ok(None)
    ensures glyphRange.Some? && !AllAllowed(glyphRange.value) ==> r == Err(BadCharacter)
    ensures r.Ok? && r.value.Some? ==> StrictlyIncreasing(r.value.value)
  {
    match glyphRange
    case None => Ok(None)
    case Some(s) =>
      if !AllAllowed(s) then Err(BadCharacter)
      else
        match ParseTokens(Split(StripEnds(s), ','))
        case Err(e) => Err(e)
        case Ok(l) => Ok(Some(SortedUnique(l)))
  }

  /** The result of `ParseRange` once the character test has passed. */
  lemma ParseRangeAllowed(s: string)
    requires AllAllowed(s)
    ensures ParseRange(Some(s)) ==
      match ParseTokens(Split(StripEnds(s), ','))
      case Err(e) => Err(e)
      case Ok(l) => Ok(Some(SortedUnique(l)))
  {
  }

  /** The token loop of `range_checker`: the values of every token, appended in order. */
  method CollectGlyphs(tokens: seq<string>) returns (r: Result<seq<int>, RangeError>)
    ensures r == ParseTokens(tokens)
  {
    var glyphList: seq<int> := [];
    for i := 0 to |tokens|
      invariant ParseTokens(tokens[..i]) == Ok(glyphList)
    {
      ParseTokensStep(tokens, i, glyphList);
      var values := ParseToken(tokens[i]);
      if values.Err? {
        ParseTokensPrefixError(tokens, i + 1);
        return Err(values.error);
      }
      glyphList := glyphList + values.value;
    }
    assert tokens[..|tokens|] == tokens;
    r := Ok(glyphList);
  }

  method RangeChecker(glyphRange: Option<string>) returns (r: Result<Option<seq<int>>, RangeError>)
    ensures r == ParseRange(glyphRange)
    ensures glyphRange.None? <==> r == Ok(None)
    ensures r.Ok? && r.value.Some? ==> StrictlyIncreasing(r.value.value)
  {
    if glyphRange.None? {
      return Ok(None);
    }
    var s := glyphRange.value;
    if !AllAllowed(s) {
      return Err(BadCharacter);
    }
    ParseRangeAllowed(s);
    s := StripRight(s, '-');
    s := StripRight(s, ',');
    s := StripLeft(s, '-');
    s := StripLeft(s, ',');
    assert s == StripEnds(glyphRange.value);
    var glyphList := CollectGlyphs(Split(s, ','));
    if glyphList.Err? {
      return Err(glyphList.error);
    }
    var charSet := SortedUnique(glyphList.value);
    r := Ok(Some(charSet));
  }

  /** Any character outside [0-9a-fxA-F,-] (a space, an upper-case X) rejects the whole expression. */
  lemma RejectsForeignCharacter(s: string, i: nat)
    requires i < |s| && !Allowed(s[i])
    ensures ParseRange(Some(s)) == Err(BadCharacter)
  {
    AllAllowedMeans(s);
  }

  /** A successful parse lists exactly the values its tokens name, ascending and without repeats. */
  lemma RangeIsSortedSetOfTokens(s: string, l: seq<int>)
    requires forall i :: 0 <= i < |s| ==> Allowed(s[i])
    requires ParseTokens(Split(StripEnds(s), ',')) == Ok(l)
    ensures ParseRange(Some(s)).Ok? && ParseRange(Some(s)).value.Some?
    ensures var cs := ParseRange(Some(s)).value.value;
            StrictlyIncreasing(cs) && Elems(cs) == Elems(l)
  {
    AllAllowedMeans(s);
  }

  // ---------------------------------------------------------------------------
  // Worked examples of the range syntax (the help text of `--range`)

  lemma DigitsHaveNo(t: string, c: char, base: nat)
    requires AllDigits(t, base) && !IsDigit(c, base)
    ensures c !in t
  {
    forall k | 0 <= k < |t| ensures t[k] != c {
      assert IsDigit(t[k], base);
    }
  }

  lemma ParseOneToken(t: string)
    ensures ParseTokens([t]) == ParseToken(t)
  {
    var ts: seq<string> := [t];
    assert ts[..0] == [];
    assert ParseTokens(ts[..0]) == Ok([]);
    if ParseToken(t).Ok? {
      assert [] + ParseToken(t).value == ParseToken(t).value;
    }
  }

  lemma ParseTwoTokens(t: string, u: string, l: seq<int>, m: seq<int>)
    requires ParseToken(t) == Ok(l) && ParseToken(u) == Ok(m)
    ensures ParseTokens([t, u]) == Ok(l + m)
  {
    var ts: seq<string> := [t, u];
    assert ts[..1] == [t];
    ParseOneToken(t);
  }

  lemma ReadsDecimalToken(n: nat)
    ensures ParseToken(DecimalText(n)) == Ok([n])
  {
    StrToIntReadsDecimal(n);
    DigitsHaveNo(DecimalText(n), '-', 10);
  }

  /** A token "a-b" of two numerals with a <= b is the interval a..b. */
  lemma ReadsIntervalToken(t: string, i: nat, a: nat, b: nat)
    requires i < |t| && t[i] == '-' && '-' !in t[..i] && '-' !in t[i + 1..]
    requires StrToInt(t[..i]) == Some(a) && StrToInt(t[i + 1..]) == Some(b) && a <= b
    ensures ParseToken(t) == Ok(Interval(a, b))
  {
    assert FirstIndex(t, '-') == i;
    assert Split(t, '-') == [t[..i], t[i + 1..]];
  }

  lemma ReadsHexByte()
    ensures ParseToken("0x2D") == Ok([45])
  {
    var u := "0x2D";
    assert u[..2] == "0x" && u[2..] == "2D";
    assert "2D"[..1] == "2";
    assert NumeralValue("2D", 16) == 45;
    assert '-' !in u;
  }

  lemma ReadsHexInterval()
    ensures ParseToken("0x30-0x39") == Ok(Interval(48, 57))
  {
    var t := "0x30-0x39";
    assert t[..4] == "0x30" && t[5..] == "0x39";
    assert "0x30"[..2] == "0x" && "0x30"[2..] == "30" && NumeralValue("30", 16) == 48;
    assert "0x39"[..2] == "0x" && "0x39"[2..] == "39" && NumeralValue("39", 16) == 57;
    ReadsIntervalToken(t, 4, 48, 57);
  }

  lemma ReadsDecimalInterval()
    ensures ParseToken("48-57") == Ok(Interval(48, 57))
  {
    StrToIntReadsDecimal(48);
    StrToIntReadsDecimal(57);
    assert DecimalText(48) == "48" && DecimalText(57) == "57";
    var t := "48-57";
    assert t[..2] == "48" && t[3..] == "57";
    ReadsIntervalToken(t, 2, 48, 57);
  }

  lemma ReadsSmallDecimals()
    ensures ParseToken("45") == Ok([45])
    ensures ParseToken("48") == Ok([48])
    ensures ParseToken("5") == Ok([5])
  {
    ReadsDecimalToken(45);
    ReadsDecimalToken(48);
    ReadsDecimalToken(5);
    assert DecimalText(45) == "45" && DecimalText(48) == "48" && DecimalText(5) == "5";
  }

  /** `s` splits at the comma at index `i` into two tokens. */
  lemma SplitOnce(s: string, i: nat)
    requires i < |s| && s[i] == ',' && ',' !in s[..i] && ',' !in s[i + 1..]
    ensures Split(s, ',') == [s[..i], s[i + 1..]]
  {
    var j := FirstIndex(s, ',');
    assert forall k :: 0 <= k < i ==> s[..i][k] == s[k];
    assert forall k :: 0 <= k < j ==> s[..j][k] == s[k];
    assert j == i;
    assert Split(s[i + 1..], ',') == [s[i + 1..]];
  }

  /** The values both help-text examples name, sorted and de-duplicated. */
  lemma HelpTextValues()
    ensures SortedUnique(Interval(48, 57) + [45]) == [45, 48, 49, 50, 51, 52, 53, 54, 55, 56, 57]
  {
    var want := [45, 48, 49, 50, 51, 52, 53, 54, 55, 56, 57];
    var l := Interval(48, 57) + [45];
    assert l == [48, 49, 50, 51, 52, 53, 54, 55, 56, 57, 45];
    assert Elems(want) == Elems(l) by {
      forall x ensures x in want <==> x in l {
      }
    }
    StrictlyIncreasingUnique(SortedUnique(l), want);
  }

  lemma HexExampleAllowed()
    ensures AllAllowed("0x30-0x39,0x2D")
  {
    var p1, p2, p3 := "0x30-", "0x39,", "0x2D";
    AllAllowedMeans(p1);
    AllAllowedMeans(p2);
    AllAllowedMeans(p3);
    AllAllowedConcat(p1, p2);
    AllAllowedConcat(p1 + p2, p3);
    assert p1 + p2 + p3 == "0x30-0x39,0x2D";
  }

  lemma HexExampleSplit()
    ensures Split("0x30-0x39,0x2D", ',') == ["0x30-0x39", "0x2D"]
  {
    var h := "0x30-0x39,0x2D";
    assert h[..9] == "0x30-0x39" && h[10..] == "0x2D";
    SplitOnce(h, 9);
  }

  lemma DecimalExampleAllowed()
    ensures AllAllowed("48-57,45")
  {
    assert AllAllowed("48-57") && AllAllowed(",45");
    AllAllowedConcat("48-57", ",45");
    assert "48-57,45" == "48-57" + ",45";
  }

  lemma DecimalExampleSplit()
    ensures Split("48-57,45", ',') == ["48-57", "45"]
  {
    var d := "48-57,45";
    assert d[..5] == "48-57" && d[6..] == "45";
    SplitOnce(d, 5);
  }

  /** Both examples of the help text denote '-' and the ten digits: [45, 48, ..., 57]. */
  lemma HelpTextExamples()
    ensures ParseRange(Some("0x30-0x39,0x2D")) == Ok(Some([45, 48, 49, 50, 51, 52, 53, 54, 55, 56, 57]))
    ensures ParseRange(Some("48-57,45")) == Ok(Some([45, 48, 49, 50, 51, 52, 53, 54, 55, 56, 57]))
  {
    HelpTextValues();
    HexExampleAllowed();
    StripEndsKeeps("0x30-0x39,0x2D");
    HexExampleSplit();
    ReadsHexInterval();
    ReadsHexByte();
    ParseTwoTokens("0x30-0x39", "0x2D", Interval(48, 57), [45]);
    ParseRangeAllowed("0x30-0x39,0x2D");
    DecimalExampleAllowed();
    StripEndsKeeps("48-57,45");
    DecimalExampleSplit();
    ReadsDecimalInterval();
    ReadsSmallDecimals();
    ParseTwoTokens("48-57", "45", Interval(48, 57), [45]);
    ParseRangeAllowed("48-57,45");
  }

  lemma DoubleDashSplit()
    ensures |Split("48--57", '-')| == 3
  {
    var s := "48--57";
    assert s[2] == '-' && '-' !in s[..2] && s[3..] == "-57";
    assert FirstIndex(s, '-') == 2;
    assert FirstIndex("-57", '-') == 0;
    assert "-57"[1..] == "57" && '-' !in "57";
  }

  lemma DoubleDashToken()
    ensures ParseTokens(Split("48--57", ',')) == Err(BadRange)
  {
    var s := "48--57";
    assert ',' !in s && '-' in s;
    DoubleDashSplit();
    ParseOneToken(s);
  }

  /** A doubled dash makes three pieces: rejected. */
  lemma RejectsDoubleDash()
    ensures ParseRange(Some("48--57")) == Err(BadRange)
  {
    assert AllAllowed("48--57");
    StripEndsKeeps("48--57");
    DoubleDashToken();
    ParseRangeAllowed("48--57");
  }

  lemma NonDecimalToken()
    ensures ParseTokens(Split("abc", ',')) == Err(BadNumber)
  {
    var s := "abc";
    assert ',' !in s && '-' !in s;
    assert !IsDigit(s[0], 10);
    assert StrToInt(s) == None;
    ParseOneToken(s);
  }

  /** Letters a-f are admitted by the character test but are not a decimal number. */
  lemma RejectsNonDecimal()
    ensures ParseRange(Some("abc")) == Err(BadNumber)
  {
    assert AllAllowed("abc");
    StripEndsKeeps("abc");
    NonDecimalToken();
    ParseRangeAllowed("abc");
  }

  /** Two separators in a row leave an empty part between them. */
  lemma SplitEmptyMiddle(x: string, d: char, y: string)
    requires d !in x && d !in y
    ensures Split(x + [d, d] + y, d) == [x, "", y]
  {
    assert x + [d, d] + y == x + [d] + ([] + [d] + y);
    SplitCons(x, d, [] + [d] + y);
    SplitTwo([], d, y);
  }

  lemma EmptyTokenSplit()
    ensures Split("48,,59", ',') == ["48", "", "59"]
  {
    var x, y := "48", "59";
    assert ',' !in x && ',' !in y;
    assert "48,,59" == x + [',', ','] + y;
    SplitEmptyMiddle(x, ',', y);
  }

  lemma EmptyTokenTokens()
    ensures ParseTokens(["48", "", "59"]) == Err(BadNumber)
  {
    var ts := ["48", "", "59"];
    ReadsSmallDecimals();
    assert ParseToken("") == Err(BadNumber);
    assert ts[..2] == ["48", ""] && ts[..2][..1] == ["48"];
    ParseOneToken("48");
    assert ParseTokens(ts[..2]) == Err(BadNumber);
    ParseTokensPrefixError(ts, 2);
  }

  /** An empty token between two commas is rejected. */
  lemma RejectsEmptyToken()
    ensures ParseRange(Some("48,,59")) == Err(BadNumber)
  {
    assert AllAllowed("48,,59");
    StripEndsKeeps("48,,59");
    EmptyTokenSplit();
    EmptyTokenTokens();
    ParseRangeAllowed("48,,59");
  }

  /** Text that starts with a separator-free x and a separator splits into x, then the parts of the rest. */
  lemma SplitCons(x: string, d: char, rest: string)
    requires d !in x
    ensures Split(x + [d] + rest, d) == [x] + Split(rest, d)
  {
    var s := x + [d] + rest;
    assert s[|x|] == d;
    var j := FirstIndex(s, d);
    assert forall k :: 0 <= k < |x| ==> s[k] == x[k];
    assert j == |x|;
    assert s[..j] == x && s[j + 1..] == rest;
  }

  /** `x + [d] + y` splits at its only `d` into x and y. */
  lemma SplitTwo(x: string, d: char, y: string)
    requires d !in x && d !in y
    ensures Split(x + [d] + y, d) == [x, y]
  {
    SplitCons(x, d, y);
  }

  /** Decimal digits are all characters the range syntax allows. */
  lemma DecimalAllowed(n: nat)
    ensures AllAllowed(DecimalText(n))
  {
    var t := DecimalText(n);
    AllAllowedMeans(t);
    assert forall k :: 0 <= k < |t| ==> IsDigit(t[k], 10);
  }

  /**
   * Two dash-free ends joined by one dash: unreadable ends are rejected, a
   * start above the end is rejected as reversed, and otherwise the token
   * stands for the inclusive interval, whatever spelling the ends use.
   */
  lemma DashedToken(x: string, y: string)
    requires '-' !in x && '-' !in y
    ensures StrToInt(x).None? || StrToInt(y).None? ==> ParseToken(x + "-" + y) == Err(BadNumber)
    ensures StrToInt(x).Some? && StrToInt(y).Some? && StrToInt(x).value > StrToInt(y).value ==>
              ParseToken(x + "-" + y) == Err(ReversedRange)
    ensures StrToInt(x).Some? && StrToInt(y).Some? && StrToInt(x).value <= StrToInt(y).value ==>
              ParseToken(x + "-" + y) == Ok(Interval(StrToInt(x).value, StrToInt(y).value))
  {
    var t := x + "-" + y;
    SplitTwo(x, '-', y);
    assert t[|x|] == '-';
  }

  /** The token "a-b" with a > b is rejected as reversed. */
  lemma ReversedToken(a: nat, b: nat)
    requires a > b
    ensures ParseToken(DecimalText(a) + "-" + DecimalText(b)) == Err(ReversedRange)
  {
    var x := DecimalText(a);
    var y := DecimalText(b);
    DigitsHaveNo(x, '-', 10);
    DigitsHaveNo(y, '-', 10);
    StrToIntReadsDecimal(a);
    StrToIntReadsDecimal(b);
    DashedToken(x, y);
  }

  /** Ends written in hex are compared by value: "0x39-0x30" is reversed. */
  lemma ReversedHexToken()
    ensures ParseToken("0x39" + "-" + "0x30") == Err(ReversedRange)
  {
    var x, y := "0x39", "0x30";
    assert x[..2] == "0x" && x[2..] == "39" && NumeralValue("39", 16) == 57;
    assert y[..2] == "0x" && y[2..] == "30" && NumeralValue("30", 16) == 48;
    assert StrToInt(x) == Some(57) && StrToInt(y) == Some(48);
    DashedToken(x, y);
  }

  /** A leading zero does not change the comparison: "057-48" is reversed. */
  lemma ReversedPaddedToken()
    ensures ParseToken("057" + "-" + "48") == Err(ReversedRange)
  {
    var x, y := "057", "48";
    assert x == ['0'] + "57" && "57"[..1] == "5";
    LeadingZero("57", 10);
    assert AllDigits(x, 10) && NumeralValue(x, 10) == 57;
    assert AllDigits(y, 10) && NumeralValue(y, 10) == 48;
    assert StrToInt(x) == Some(57) && StrToInt(y) == Some(48);
    DashedToken(x, y);
  }

  /** Digits joined by a dash use only the characters a range may hold. */
  lemma DashedAllowed(x: string, y: string)
    requires AllDigits(x, 10) && AllDigits(y, 10)
    ensures AllAllowed(x + "-" + y)
  {
    AllAllowedMeans(x);
    AllAllowedMeans(y);
    assert AllAllowed("-");
    AllAllowedConcat(x, "-");
    AllAllowedConcat(x + "-", y);
  }

  /** Digits joined by a dash hold no comma. */
  lemma DashedNoComma(x: string, y: string)
    requires AllDigits(x, 10) && AllDigits(y, 10)
    ensures ',' !in x + "-" + y
  {
    DigitsHaveNo(x, ',', 10);
    DigitsHaveNo(y, ',', 10);
    var t := x + "-" + y;
    assert forall k :: 0 <= k < |t| ==> t[k] == if k < |x| then x[k] else if k == |x| then '-' else y[k - |x| - 1];
  }

  /** The text "a-b" of two decimals passes the character test, the strips and the comma split unchanged. */
  lemma DecimalRangeText(a: nat, b: nat)
    ensures var t := DecimalText(a) + "-" + DecimalText(b);
      AllAllowed(t) && StripEnds(t) == t && Split(t, ',') == [t]
  {
    var x := DecimalText(a);
    var y := DecimalText(b);
    var t := x + "-" + y;
    DashedAllowed(x, y);
    assert IsDigit(t[0], 10) && IsDigit(t[|t| - 1], 10) by {
      assert t[0] == x[0] && t[|t| - 1] == y[|y| - 1];
    }
    StripEndsKeeps(t);
    DashedNoComma(x, y);
  }

  /** A sub-range "a-b" whose start a exceeds its end b is rejected, whatever the numbers. */
  lemma RejectsReversedRange(a: nat, b: nat)
    requires a > b
    ensures ParseRange(Some(DecimalText(a) + "-" + DecimalText(b))) == Err(ReversedRange)
  {
    var t := DecimalText(a) + "-" + DecimalText(b);
    DecimalRangeText(a, b);
    ReversedToken(a, b);
    ParseOneToken(t);
    ParseRangeAllowed(t);
  }

  /** The help text's numbers written backwards, "57-48", are rejected. */
  lemma RejectsReversedExample()
    ensures ParseRange(Some("57-48")) == Err(ReversedRange)
  {
    assert DecimalText(57) == "57";
    assert DecimalText(48) == "48";
    var t := DecimalText(57) + "-" + DecimalText(48);
    assert t == "57-48";
    RejectsReversedRange(57, 48);
  }

  lemma StripLeadingDashText()
    ensures StripEnds("-5") == "5"
  {
    assert StripRight("-5", '-') == "-5" && StripRight("-5", ',') == "-5";
    assert "-5"[1..] == "5";
  }

  lemma SingleDigitTokens()
    ensures ParseTokens(Split("5", ',')) == Ok([5])
    ensures ParseTokens(Split("48", ',')) == Ok([48])
  {
    assert ',' !in "5" && ',' !in "48";
    ReadsSmallDecimals();
    ParseOneToken("5");
    ParseOneToken("48");
  }

  lemma SingletonsSorted()
    ensures SortedUnique([5]) == [5] && SortedUnique([48]) == [48]
  {
    assert [5][..0] == [] && [48][..0] == [];
  }

  /** Leading dashes are stripped before splitting: "-5" is [5]. */
  lemma StripsLeadingDash()
    ensures ParseRange(Some("-5")) == Ok(Some([5]))
  {
    assert AllAllowed("-5");
    StripLeadingDashText();
    SingleDigitTokens();
    SingletonsSorted();
    ParseRangeAllowed("-5");
  }

  /** Trailing commas are stripped before splitting: "48," is [48]. */
  lemma StripTrailingCommaText()
    ensures StripEnds("48,") == "48"
  {
    assert StripRight("48,", '-') == "48,";
    assert "48,"[..2] == "48";
    assert StripRight("48,", ',') == "48";
    StripEndsKeeps("48");
  }

  lemma StripsTrailingComma()
    ensures ParseRange(Some("48,")) == Ok(Some([48]))
  {
    assert AllAllowed("48,");
    StripTrailingCommaText();
    SingleDigitTokens();
    SingletonsSorted();
    ParseRangeAllowed("48,");
  }

  // ---------------------------------------------------------------------------
  // size_checker: Python's int() on text, then a sign test

  /** The white space `int()` ignores at either end (ASCII part). */
  predicate IsSpace(c: char)
  {
    c == ' ' || (9 <= c as int <= 13) || (28 <= c as int <= 31)
  }

  function StripSpaces(s: string): (r: string)
    ensures |r| <= |s|
    ensures s != [] && !IsSpace(s[0]) && !IsSpace(s[|s| - 1]) ==> r == s
  {
    if s != [] && IsSpace(s[0]) then StripSpaces(s[1..])
    else if s != [] && IsSpace(s[|s| - 1]) then StripSpaces(s[..|s| - 1])
    else s
  }

  /** Decimal digits, with single underscores allowed between two digits. */
  predicate IsDigitGroup(s: string)
  {
    && s != []
    && IsDigit(s[0], 10) && IsDigit(s[|s| - 1], 10)
    && (forall i :: 0 <= i < |s| ==> IsDigit(s[i], 10) || s[i] == '_')
    && (forall i :: 0 <= i < |s| - 1 ==> !(s[i] == '_' && s[i + 1] == '_'))
  }

  function DropUnderscores(s: string): (r: string)
    ensures forall i :: 0 <= i < |r| ==> r[i] != '_'
    ensures (forall i :: 0 <= i < |s| ==> s[i] != '_') ==> r == s
  {
    if s == [] then [] else (if s[0] == '_' then [] else [s[0]]) + DropUnderscores(s[1..])
  }

  /** `int(s)` in base 10, `None` where Python raises. */
  function PyInt(s: string): (r: Option<int>)
    ensures r.Some? <==> var t := StripSpaces(s);
      IsDigitGroup(t) || (t != [] && (t[0] == '+' || t[0] == '-') && IsDigitGroup(t[1..]))
    ensures r.Some? && r.value < 0 ==> StripSpaces(s) != [] && StripSpaces(s)[0] == '-'
  {
    var t := StripSpaces(s);
    if t != [] && (t[0] == '+' || t[0] == '-') then
      if IsDigitGroup(t[1..]) then
        var n := NumeralValue(DropUnderscores(t[1..]), 10) as int;
        Some(if t[0] == '-' then -n else n)
      else None
    else if IsDigitGroup(t) then Some(NumeralValue(DropUnderscores(t), 10) as int)
    else None
  }

  lemma PyIntSigned(m: string)
    requires m != [] && StripSpaces(m) == m && m[0] == '-' && IsDigitGroup(m[1..])
    ensures PyInt(m) == Some(-(NumeralValue(DropUnderscores(m[1..]), 10) as int))
  {
    var t := StripSpaces(m);
    assert t != [] && (t[0] == '+' || t[0] == '-') && IsDigitGroup(t[1..]);
  }

  /** `size_checker`: the integer value of non-negative integer text, an error otherwise. */
  function SizeChecker(size: string): (r: Result<nat, SizeError>)
    ensures r.Ok? <==> PyInt(size).Some? && PyInt(size).value >= 0
    ensures r.Ok? ==> PyInt(size) == Some(r.value as int)
  {
    match PyInt(size)
    case None => Err(InvalidSize)
    case Some(n) => if n < 0 then Err(InvalidSize) else Ok(n)
  }

  /** Plain decimal digits are their own stripped, underscore-free digit group. */
  lemma PlainDigits(t: string)
    requires t != [] && AllDigits(t, 10)
    ensures IsDigitGroup(t) && DropUnderscores(t) == t
  {
    assert forall i :: 0 <= i < |t| ==> t[i] != '_' by {
      forall i | 0 <= i < |t| ensures t[i] != '_' { assert IsDigit(t[i], 10); }
    }
  }

  /** Every natural number, written in decimal, is accepted as itself (0 included). */
  lemma {:induction false} SizeCheckerAcceptsNaturals(n: nat)
    ensures SizeChecker(DecimalText(n)) == Ok(n)
  {
    PlainDecimal(DecimalText(n));
    TextRoundTrip(n, 10);
  }

  /** int() of a plain run of decimal digits is its value. */
  lemma PlainDecimal(t: string)
    requires t != [] && AllDigits(t, 10)
    ensures PyInt(t) == Some(NumeralValue(t, 10) as int)
  {
    assert IsDigit(t[0], 10) && IsDigit(t[|t| - 1], 10);
    assert StripSpaces(t) == t;
    PlainDigits(t);
  }

  /** A minus sign in front of a positive number is rejected. */
  lemma {:induction false} SizeCheckerRejectsNegatives(n: nat)
    requires n > 0
    ensures SizeChecker("-" + DecimalText(n)).Err?
  {
    var t := DecimalText(n);
    var m := "-" + t;
    TextRoundTrip(n, 10);
    PlainDigits(t);
    assert IsDigit(t[|t| - 1], 10);
    assert !IsSpace(m[0]) && !IsSpace(m[|m| - 1]);
    assert StripSpaces(m) == m;
    assert m[1..] == t;
    PyIntSigned(m);
  }
}
