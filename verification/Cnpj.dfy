/** The CNPJ check digits twice: the validator's fold and the table's unrolled sums. Letter case is ASCII. */
module Cnpj {
  import opened TextNormalization

  const FIRST_WEIGHTS := [5, 4, 3, 2, 9, 8, 7, 6, 5, 4, 3, 2]
  const SECOND_WEIGHTS := [6, 5, 4, 3, 2, 9, 8, 7, 6, 5, 4, 3, 2]

  function Upper(c: char): char {
    if 'a' <= c <= 'z' then c - 'a' + 'A' else c
  }

  /** Upper case without dots, slashes, hyphens and spaces. */
  function StripMask(s: string): string {
    if s == "" then ""
    else
      var c := s[|s| - 1];
      StripMask(s[..|s| - 1]) + (if c == '.' || c == '/' || c == '-' || IsSpace(c) then "" else [Upper(c)])
  }

  /** normalizeOrganizationCnpj */
  function NormalizeCnpj(value: string): string {
    StripMask(Trim(value))
  }

  function Code(c: char): int {
    c as int - 48
  }

  predicate IsDigit(c: char) {
    '0' <= c <= '9'
  }

  predicate IsAlphanumeric(c: char) {
    IsDigit(c) || 'A' <= c <= 'Z'
  }

  /** ^[0-9A-Z]{12}[0-9]{2}$ */
  predicate HasFormat(s: string) {
    && |s| == 14
    && (forall i | 0 <= i < 12 :: IsAlphanumeric(s[i]))
    && IsDigit(s[12]) && IsDigit(s[13])
  }

  /** The reduce over the characters and their weights. */
  function WeightedSum(s: string, weights: seq<int>): int
    requires |s| <= |weights|
  {
    if s == "" then 0 else WeightedSum(s[..|s| - 1], weights) + Code(s[|s| - 1]) * weights[|s| - 1]
  }

  /** The sums are never negative here, so the remainder is the language's own. */
  function Digit(sum: int): int {
    var remainder := sum % 11;
    if remainder < 2 then 0 else 11 - remainder
  }

  function DigitChar(d: int): char
    requires 0 <= d <= 9
  {
    (48 + d) as char
  }

  /** isValidOrganizationCnpj, after normalisation. The second digit is computed from the computed first digit. */
  predicate IsValidNormalized(s: string) {
    && HasFormat(s)
    && s != "00000000000000"
    && var first := Digit(WeightedSum(s[..12], FIRST_WEIGHTS));
       var second := Digit(WeightedSum(s[..12] + [DigitChar(first)], SECOND_WEIGHTS));
       s[12..] == [DigitChar(first), DigitChar(second)]
  }

  predicate IsValidOrganizationCnpj(value: string) {
    IsValidNormalized(NormalizeCnpj(value))
  }

  /* ---- The table ---- */

  function FirstSum(s: string): int
    requires |s| >= 12
  {
    Code(s[0]) * 5 + Code(s[1]) * 4 + Code(s[2]) * 3 + Code(s[3]) * 2 + Code(s[4]) * 9 + Code(s[5]) * 8 +
    Code(s[6]) * 7 + Code(s[7]) * 6 + Code(s[8]) * 5 + Code(s[9]) * 4 + Code(s[10]) * 3 + Code(s[11]) * 2
  }

  function SecondSum(s: string): int
    requires |s| >= 13
  {
    Code(s[0]) * 6 + Code(s[1]) * 5 + Code(s[2]) * 4 + Code(s[3]) * 3 + Code(s[4]) * 2 + Code(s[5]) * 9 +
    Code(s[6]) * 8 + Code(s[7]) * 7 + Code(s[8]) * 6 + Code(s[9]) * 5 + Code(s[10]) * 4 + Code(s[11]) * 3 +
    Code(s[12]) * 2
  }

  /** The format check and the check-digits check together. The second digit is computed from the stored first digit. */
  predicate TableAccepts(s: string) {
    && HasFormat(s) && s != "00000000000000"
    && Code(s[12]) == Digit(FirstSum(s))
    && Code(s[13]) == Digit(SecondSum(s))
  }

  /* ---- The two agree ---- */

  lemma {:induction false} SumPrefix(s: string, weights: seq<int>, k: nat)
    requires k < |s| <= |weights|
    ensures WeightedSum(s[..k + 1], weights) == WeightedSum(s[..k], weights) + Code(s[k]) * weights[k]
  {
    assert s[..k + 1][..k] == s[..k];
  }

  lemma FoldIsFirstSum(s: string)
    requires |s| == 12
    ensures WeightedSum(s, FIRST_WEIGHTS) == FirstSum(s)
  {
    hide WeightedSum, Code;
    WeightedSumEmpty(FIRST_WEIGHTS);
    assert s[..0] == "" && s[..12] == s;
    SumPrefix(s, FIRST_WEIGHTS, 0); SumPrefix(s, FIRST_WEIGHTS, 1); SumPrefix(s, FIRST_WEIGHTS, 2);
    SumPrefix(s, FIRST_WEIGHTS, 3); SumPrefix(s, FIRST_WEIGHTS, 4); SumPrefix(s, FIRST_WEIGHTS, 5);
    SumPrefix(s, FIRST_WEIGHTS, 6); SumPrefix(s, FIRST_WEIGHTS, 7); SumPrefix(s, FIRST_WEIGHTS, 8);
    SumPrefix(s, FIRST_WEIGHTS, 9); SumPrefix(s, FIRST_WEIGHTS, 10); SumPrefix(s, FIRST_WEIGHTS, 11);
  }

  lemma FoldIsSecondSum(s: string)
    requires |s| == 13
    ensures WeightedSum(s, SECOND_WEIGHTS) == SecondSum(s)
  {
    hide WeightedSum, Code;
    WeightedSumEmpty(SECOND_WEIGHTS);
    assert s[..0] == "" && s[..13] == s;
    SumPrefix(s, SECOND_WEIGHTS, 0); SumPrefix(s, SECOND_WEIGHTS, 1); SumPrefix(s, SECOND_WEIGHTS, 2);
    SumPrefix(s, SECOND_WEIGHTS, 3); SumPrefix(s, SECOND_WEIGHTS, 4); SumPrefix(s, SECOND_WEIGHTS, 5);
    SumPrefix(s, SECOND_WEIGHTS, 6); SumPrefix(s, SECOND_WEIGHTS, 7); SumPrefix(s, SECOND_WEIGHTS, 8);
    SumPrefix(s, SECOND_WEIGHTS, 9); SumPrefix(s, SECOND_WEIGHTS, 10); SumPrefix(s, SECOND_WEIGHTS, 11);
    SumPrefix(s, SECOND_WEIGHTS, 12);
  }

  lemma WeightedSumEmpty(weights: seq<int>)
    ensures WeightedSum("", weights) == 0
  {
  }

  /** On normalised strings the validator and the table accept the same. */
  lemma ValidatorIsTable(s: string)
    ensures IsValidNormalized(s) <==> TableAccepts(s)
  {
    if HasFormat(s) {
      var body := s[..12];
      FoldIsFirstSum(body);
      assert FirstSum(body) == FirstSum(s);
      var first := Digit(FirstSum(s));
      var withFirst := body + [DigitChar(first)];
      FoldIsSecondSum(withFirst);
      if Code(s[12]) == first {
        assert s[12] == DigitChar(first);
        assert SecondSum(withFirst) == SecondSum(s);
      }
    }
  }

  lemma CanonicalIsNormalized(value: string)
    requires HasFormat(value)
    ensures NormalizeCnpj(value) == value
  {
    assert forall i | 0 <= i < |value| :: IsAlphanumeric(value[i]);
    hide HasFormat;
    TrimShape(value);
    StripMaskKeeps(value);
  }

  /** A canonical string is a fixpoint of the normalisation, so over all strings the table accepts exactly the valid
      ones that are written canonically, and a valid mask always normalises to a string the table accepts. */
  lemma TableAcceptsCanonicalForms(value: string)
    ensures TableAccepts(value) <==> IsValidOrganizationCnpj(value) && NormalizeCnpj(value) == value
    ensures IsValidOrganizationCnpj(value) <==> TableAccepts(NormalizeCnpj(value))
  {
    hide IsSpace;
    ValidatorIsTable(value);
    ValidatorIsTable(NormalizeCnpj(value));
    if HasFormat(value) {
      CanonicalIsNormalized(value);
    }
  }

  lemma AlphanumericIsKept(c: char)
    requires IsAlphanumeric(c)
    ensures c != '.' && c != '/' && c != '-' && !IsSpace(c) && Upper(c) == c
  {
  }

  lemma {:induction false} StripMaskKeeps(s: string)
    requires forall i | 0 <= i < |s| :: IsAlphanumeric(s[i])
    ensures StripMask(s) == s
  {
    hide IsAlphanumeric, IsSpace, Upper;
    if s != "" {
      StripMaskKeeps(s[..|s| - 1]);
      AlphanumericIsKept(s[|s| - 1]);
      assert s == s[..|s| - 1] + [s[|s| - 1]];
    }
  }

  /** The value writes the code: letters of either case, with dots, slashes, hyphens and spaces anywhere. */
  predicate Writes(value: string, code: string) {
    if value == "" then code == ""
    else
      var n, m := |value| - 1, |code| - 1;
      var c := value[n];
      if c == '.' || c == '/' || c == '-' || IsSpace(c) then Writes(value[..n], code)
      else code != "" && code[m] == (if 'a' <= c <= 'z' then c - 'a' + 'A' else c) && Writes(value[..n], code[..m])
  }

  lemma {:induction false} StrippedIsWritten(value: string, code: string)
    ensures StripMask(value) == code <==> Writes(value, code)
  {
    hide IsSpace;
    if value != "" {
      var n, m := |value| - 1, |code| - 1;
      StrippedIsWritten(value[..n], code);
      if code != "" {
        StrippedIsWritten(value[..n], code[..m]);
        assert code == code[..m] + [code[m]];
      }
    }
  }

  lemma {:induction false} StripSpaceInFront(c: char, s: string)
    requires IsSpace(c)
    ensures StripMask([c] + s) == StripMask(s)
  {
    hide IsSpace;
    if s == "" {
      assert [c][..0] == "" && [c] + s == [c];
      assert StripMask([c]) == StripMask([c][..0]);
    } else {
      var n := |s| - 1;
      assert ([c] + s)[..|[c] + s| - 1] == [c] + s[..n];
      StripSpaceInFront(c, s[..n]);
    }
  }

  lemma {:induction false} StripTrimmed(s: string)
    ensures StripMask(TrimStart(s)) == StripMask(s) && StripMask(TrimEnd(s)) == StripMask(s)
    decreases |s|
  {
    hide IsSpace;
    if s != "" {
      if IsSpace(s[0]) {
        StripTrimmed(s[1..]);
        StripSpaceInFront(s[0], s[1..]);
        assert s == [s[0]] + s[1..];
      }
      if IsSpace(s[|s| - 1]) {
        StripTrimmed(s[..|s| - 1]);
      }
    }
  }

  /** A value is normalised to the code it writes, so it is valid exactly when it writes a code the table accepts. */
  lemma NormalizedIsWritten(value: string, code: string)
    ensures NormalizeCnpj(value) == code <==> Writes(value, code)
    ensures IsValidOrganizationCnpj(value) <==> exists s :: Writes(value, s) && TableAccepts(s)
  {
    hide Writes, StripMask, IsValidNormalized, TableAccepts;
    StripTrimmed(value);
    StripTrimmed(TrimStart(value));
    StrippedIsWritten(value, code);
    StrippedIsWritten(value, NormalizeCnpj(value));
    ValidatorIsTable(NormalizeCnpj(value));
    forall s | Writes(value, s)
      ensures s == NormalizeCnpj(value)
    {
      StrippedIsWritten(value, s);
    }
  }

  /* ---- Error detection ---- */

  /** Every body except twelve zeros has exactly one valid pair of check digits; twelve zeros have none. */
  lemma ExactlyOneDigitPair(body: string)
    requires |body| == 12 && forall i | 0 <= i < 12 :: IsAlphanumeric(body[i])
    ensures
      var first := DigitChar(Digit(FirstSum(body)));
      var second := DigitChar(Digit(SecondSum(body + [first])));
      forall a, b :: IsValidNormalized(body + [a, b]) <==> body != "000000000000" && a == first && b == second
  {
    var first := DigitChar(Digit(FirstSum(body)));
    var second := DigitChar(Digit(SecondSum(body + [first])));
    forall a, b
      ensures IsValidNormalized(body + [a, b]) <==> body != "000000000000" && a == first && b == second
    {
      var s := body + [a, b];
      ValidatorIsTable(s);
      assert FirstSum(s) == FirstSum(body);
      if a == first {
        assert SecondSum(s) == SecondSum(body + [first]);
      }
      assert s[..12] == body;
      if body == "000000000000" {
        ZeroBody(s);
      }
    }
  }

  lemma ZeroBody(s: string)
    requires |s| == 14 && s[..12] == "000000000000"
    ensures !TableAccepts(s)
  {
    var zeros := "000000000000";
    assert forall i | 0 <= i < 12 :: s[i] == zeros[i] == '0';
  }

  /** Moving a sum keeps its digit exactly when it moves by a multiple of eleven, or between the remainders 0 and 1. */
  lemma DigitKept(sum: int, move: int)
    ensures Digit(sum + move) == Digit(sum) <==>
            move % 11 == 0 || (move % 11 == 1 && sum % 11 == 0) || (move % 11 == 10 && sum % 11 == 1)
  {
    var r, m := sum % 11, move % 11;
    ModuloOfShift(r + m, sum / 11 + move / 11);
    assert 11 * (sum / 11 + move / 11) + (r + m) == sum + move;
    assert (sum + move) % 11 == (r + m) % 11;
  }

  /** Replacing the character at position i moves the first sum by its weight times the difference of the codes, and
      the second likewise. */
  lemma SumsAfterReplacement(s: string, i: nat, c: char)
    requires |s| == 14 && i < 12
    ensures FirstSum(s[i := c]) - FirstSum(s) == FIRST_WEIGHTS[i] * (Code(c) - Code(s[i]))
    ensures SecondSum(s[i := c]) - SecondSum(s) == SECOND_WEIGHTS[i] * (Code(c) - Code(s[i]))
  {
    hide Code;
    FirstSumAfterReplacement(s, i, c);
    SecondSumAfterReplacement(s, i, c);
  }

  lemma FirstSumAfterReplacement(s: string, i: nat, c: char)
    requires |s| == 14 && i < 12
    ensures FirstSum(s[i := c]) - FirstSum(s) == FIRST_WEIGHTS[i] * (Code(c) - Code(s[i]))
  {
    hide Code;
  }

  lemma SecondSumAfterReplacement(s: string, i: nat, c: char)
    requires |s| == 14 && i < 12
    ensures SecondSum(s[i := c]) - SecondSum(s) == SECOND_WEIGHTS[i] * (Code(c) - Code(s[i]))
  {
    hide Code;
  }

  /** If both multiples of a difference are 0 or ±1 modulo eleven and the difference is not 0, the two weights are equal or
      opposite; among the pairs used that happens only where they sum to eleven. */
  lemma WeightsCannotBothMiss(i: nat, difference: int)
    requires i < 12
    ensures
      var a := FIRST_WEIGHTS[i] * difference % 11;
      var b := SECOND_WEIGHTS[i] * difference % 11;
      difference % 11 != 0 && (a == 0 || a == 1 || a == 10) && (b == 0 || b == 1 || b == 10) ==>
        i % 4 == 0 && FIRST_WEIGHTS[i] + SECOND_WEIGHTS[i] == 11 && a != 0
  {
    var r := difference % 11;
    var w, v := FIRST_WEIGHTS[i], SECOND_WEIGHTS[i];
    ResidueOfProduct(w, difference);
    ResidueOfProduct(v, difference);
    assert r == 0 || r == 1 || r == 2 || r == 3 || r == 4 || r == 5 || r == 6 || r == 7 || r == 8 || r == 9 || r == 10;
    assert w == 5 || w == 4 || w == 3 || w == 2 || w == 9 || w == 8 || w == 7 || w == 6;
  }

  lemma ResidueOfProduct(w: int, d: int)
    requires 2 <= w <= 9
    ensures w * d % 11 == w * (d % 11) % 11
  {
    var q := d / 11;
    assert d == 11 * q + d % 11;
    assert w * d == 11 * (w * q) + w * (d % 11);
    ModuloOfShift(w * (d % 11), w * q);
  }

  lemma ModuloOfShift(x: int, k: int)
    ensures (11 * k + x) % 11 == x % 11
  {
  }

  /** The move of the first sum, modulo eleven. */
  function Moved(s: string, i: nat, c: char): int
    requires |s| == 14 && i < 12
  {
    FIRST_WEIGHTS[i] * (Code(c) - Code(s[i])) % 11
  }

  /** The replacement leaves both digits as they are: the codes agree modulo eleven, or at a position whose two weights sum
      to eleven one sum goes from remainder 0 to 1 and the other from 1 to 0. */
  predicate LeavesDigits(s: string, i: nat, c: char)
    requires |s| == 14 && i < 12
  {
    || (Code(c) - Code(s[i])) % 11 == 0
    || (i % 4 == 0 && Moved(s, i, c) == 1 && FirstSum(s) % 11 == 0 && SecondSum(s) % 11 == 1)
    || (i % 4 == 0 && Moved(s, i, c) == 10 && FirstSum(s) % 11 == 1 && SecondSum(s) % 11 == 0)
  }

  /** Exactly which single replacements in the body of a valid code go unnoticed. */
  lemma ReplacementPassesExactly(s: string, i: nat, c: char)
    requires IsValidNormalized(s) && i < 12
    ensures |s| == 14
    ensures IsValidNormalized(s[i := c]) <==> IsAlphanumeric(c) && s[i := c] != "00000000000000" && LeavesDigits(s, i, c)
  {
    assert |s| == 14;
    ValidatorIsTable(s);
    ValidatorIsTable(s[i := c]);
    hide IsValidNormalized, FirstSum, SecondSum, Digit, Code, LeavesDigits;
    DigitsLeft(s, i, c);
    FormatKept(s, i, c);
  }

  lemma FormatKept(s: string, i: nat, c: char)
    requires HasFormat(s) && i < 12
    ensures HasFormat(s[i := c]) <==> IsAlphanumeric(c)
    ensures s[i := c][12] == s[12] && s[i := c][13] == s[13]
  {
    hide IsAlphanumeric, IsDigit;
    assert s[i := c][i] == c;
  }

  lemma DigitsLeft(s: string, i: nat, c: char)
    requires |s| == 14 && i < 12
    ensures Digit(FirstSum(s[i := c])) == Digit(FirstSum(s)) && Digit(SecondSum(s[i := c])) == Digit(SecondSum(s)) <==>
            LeavesDigits(s, i, c)
  {
    hide FirstSum, SecondSum, Digit, Code;
    SumsAfterReplacement(s, i, c);
    DigitsOfMovedSums(i, Code(c) - Code(s[i]), FirstSum(s), SecondSum(s));
  }

  lemma DigitsOfMovedSums(i: nat, difference: int, first: int, second: int)
    requires i < 12
    ensures
      var moved := FIRST_WEIGHTS[i] * difference % 11;
      Digit(first + FIRST_WEIGHTS[i] * difference) == Digit(first) && Digit(second + SECOND_WEIGHTS[i] * difference) == Digit(second)
      <==>
      || difference % 11 == 0
      || (i % 4 == 0 && moved == 1 && first % 11 == 0 && second % 11 == 1)
      || (i % 4 == 0 && moved == 10 && first % 11 == 1 && second % 11 == 0)
  {
    hide Digit;
    var w, v := FIRST_WEIGHTS[i], SECOND_WEIGHTS[i];
    DigitKept(first, w * difference);
    DigitKept(second, v * difference);
    WeightsCannotBothMiss(i, difference);
    if difference % 11 == 0 {
      MultipleOfEleven(w, difference);
      MultipleOfEleven(v, difference);
    }
    if i % 4 == 0 {
      OppositeMoves(w, v, difference);
    }
  }

  lemma MultipleOfEleven(weight: int, difference: int)
    requires difference % 11 == 0
    ensures weight * difference % 11 == 0
  {
    var q := difference / 11;
    assert weight * difference == 11 * (weight * q);
    ModuloOfShift(0, weight * q);
  }

  lemma OppositeMoves(w: int, v: int, difference: int)
    requires w + v == 11
    ensures v * difference % 11 == (11 - w * difference % 11) % 11
  {
    var q, m := w * difference / 11, w * difference % 11;
    assert v * difference == 11 * difference - w * difference;
    assert v * difference == 11 * (difference - q - 1) + (11 - m);
    ModuloOfShift(11 - m, difference - q - 1);
  }

  /** A single wrong character in the body is caught, unless its code agrees with the right one modulo eleven or it stands
      at one of the positions 0, 4 and 8, whose two weights sum to eleven, and moves the first sum by ±1 modulo eleven. */
  lemma SingleReplacementIsCaught(s: string, i: nat, c: char)
    requires IsValidNormalized(s) && i < 12
    requires (Code(c) - Code(s[i])) % 11 != 0
    requires IsValidNormalized(s[i := c])
    ensures i == 0 || i == 4 || i == 8
    ensures
      var moved := FIRST_WEIGHTS[i] * (Code(c) - Code(s[i])) % 11;
      moved == 1 || moved == 10
  {
    hide IsValidNormalized, FirstSum, SecondSum, Code, IsAlphanumeric;
    ReplacementPassesExactly(s, i, c);
  }

  /** A replacement whose code agrees modulo eleven is never caught, unless it leaves nothing but zeros. */
  lemma CongruentReplacementPasses(s: string, i: nat, c: char)
    requires IsValidNormalized(s) && i < 12 && IsAlphanumeric(c)
    requires (Code(c) - Code(s[i])) % 11 == 0
    requires s[i := c] != "00000000000000"
    ensures IsValidNormalized(s[i := c])
  {
    ReplacementPassesExactly(s, i, c);
  }

  /** The exceptions exist, in both kinds: at position 0 with codes that differ modulo eleven, and elsewhere with codes
      that agree modulo eleven. */
  lemma UnnoticedReplacements()
    ensures
      var s := "11103120022100";
      IsValidNormalized(s) && IsValidNormalized(s[0 := 'E']) && (Code('E') - Code(s[0])) % 11 != 0
    ensures
      var s := "16103120022123";
      IsValidNormalized(s) && IsValidNormalized(s[1 := 'A']) && (Code('A') - Code(s[1])) % 11 == 0
  {
    var s, t := "11103120022100", "16103120022123";
    hide IsValidNormalized, TableAccepts, HasFormat;
    ValidatorIsTable(s);
    ValidatorIsTable("E1103120022100");
    ValidatorIsTable(t);
    ValidatorIsTable("1A103120022123");
    AcceptedAtZero();
    AcceptedElsewhere();
    assert s[0 := 'E'] == "E1103120022100" && t[1 := 'A'] == "1A103120022123";
  }

  lemma AcceptedAtZero()
    ensures TableAccepts("11103120022100") && TableAccepts("E1103120022100")
  {
    hide FirstSum, SecondSum;
    ExampleSums("11103120022100", 1, 1, 1, 0, 3, 1, 2, 0, 0, 2, 2, 1, 0);
    ExampleSums("E1103120022100", 21, 1, 1, 0, 3, 1, 2, 0, 0, 2, 2, 1, 0);
  }

  lemma AcceptedElsewhere()
    ensures TableAccepts("16103120022123") && TableAccepts("1A103120022123")
  {
    hide FirstSum, SecondSum;
    ExampleSums("16103120022123", 1, 6, 1, 0, 3, 1, 2, 0, 0, 2, 2, 1, 2);
    ExampleSums("1A103120022123", 1, 17, 1, 0, 3, 1, 2, 0, 0, 2, 2, 1, 2);
  }

  lemma ExampleSums(s: string, a: int, b: int, c: int, d: int, e: int, f: int, g: int, h: int, i: int, j: int, k: int, l: int, m: int)
    requires |s| == 14
    requires Code(s[0]) == a && Code(s[1]) == b && Code(s[2]) == c && Code(s[3]) == d && Code(s[4]) == e && Code(s[5]) == f
    requires Code(s[6]) == g && Code(s[7]) == h && Code(s[8]) == i && Code(s[9]) == j && Code(s[10]) == k && Code(s[11]) == l
    requires Code(s[12]) == m
    ensures FirstSum(s) == a * 5 + b * 4 + c * 3 + d * 2 + e * 9 + f * 8 + g * 7 + h * 6 + i * 5 + j * 4 + k * 3 + l * 2
    ensures SecondSum(s) == a * 6 + b * 5 + c * 4 + d * 3 + e * 2 + f * 9 + g * 8 + h * 7 + i * 6 + j * 5 + k * 4 + l * 3 + m * 2
  {
  }
}
