/**
 Exactly which strings src/bech32.cpp decodes, and to what.

 Main result: DecodedIff.
 */
module BechExact {
  import opened Bech32
  import opened Wrappers

  // ----- the prefix in the checksum -----

  lemma BitsOf(c: char)
    requires c as int < 1024
    ensures 32 * (HighBits(c) as int) + LowBits(c) as int == c as int
  {
    BackToInt((c as int) / 32 % 32);
    BackToInt((c as int) % 32);
  }

  /** The upper bits of the characters of the prefix, a zero, and their lower bits. */
  lemma ExpandedIs(hrp: string, i: nat)
    requires i < |hrp| && hrp[i] as int < 256
    ensures var e, n := Expanded(hrp), |hrp|;
            |e| == 2 * n + 1 && e[n] == 0 && 32 * (e[i] as int) + e[n + 1 + i] as int == hrp[i] as int
  {
    hide HighBits, LowBits;
    BitsOf(hrp[i]);
  }

  // ----- decoding -----

  // Printable characters without a letter of each case.
  predicate WellWritten(s: string) {
    && (forall i :: 0 <= i < |s| ==> 33 <= s[i] as int <= 126)
    && (forall i, j :: 0 <= i < |s| && 0 <= j < |s| ==> !(97 <= s[i] as int <= 122 && 65 <= s[j] as int <= 90))
  }

  lemma CharactersIff(s: string)
    ensures CharactersOk(s) <==> WellWritten(s)
  {
  }

  lemma CaseIgnored(c: char)
    ensures SymbolOf(LowerCase(c)) == SymbolOf(c) && (LowerCase(c) == '1' <==> c == '1')
  {
  }

  lemma {:induction false} SymbolsIgnoreCase(s: string)
    ensures Symbols(Lower(s)) == Symbols(s)
    decreases |s|
  {
    hide SymbolOf, LowerCase;
    if s != "" {
      SymbolsIgnoreCase(s[..|s| - 1]);
      CaseIgnored(s[|s| - 1]);
      assert Lower(s)[..|s| - 1] == Lower(s[..|s| - 1]);
    }
  }

  lemma {:induction false} LastOneIgnoresCase(s: string)
    ensures LastOne(Lower(s)) == LastOne(s)
    decreases |s|
  {
    hide LowerCase;
    if s != "" {
      LastOneIgnoresCase(s[..|s| - 1]);
      CaseIgnored(s[|s| - 1]);
      assert Lower(s)[..|s| - 1] == Lower(s[..|s| - 1]);
    }
  }

  // A string that is an encoding apart from case.
  lemma DecodeWritten(s: string, hrp: string, values: Data)
    requires WellWritten(s) && |s| <= 90 && hrp != "" && Lower(s) == Encoded(hrp, values)
    ensures Decoded(s) == Some((hrp, values))
  {
    hide ChecksumOf, Expanded, CharOf, CharactersOk, LastOne, Symbols, PolyFrom, LowerCase, WellWritten;
    var sum := ChecksumOf(Expanded(hrp) + values);
    var all, n := values + sum, |hrp|;
    CharactersIff(s);
    assert |Lower(s)| == |s| == n + 1 + |all|;
    LastOneIgnoresCase(s);
    assert LastOne(s) == n by { NoOneInChars(all); LastOneFound(hrp, Chars(all)); }
    assert Lower(s[..n]) == Lower(s)[..n] == hrp;
    assert Lower(s[n + 1..]) == Lower(s)[n + 1..] == Chars(all);
    SymbolsIgnoreCase(s[n + 1..]);
    SymbolsOfChars(all);
    ChecksumVerifies(Expanded(hrp) + values);
    assert Expanded(hrp) + all == Expanded(hrp) + values + sum;
    assert all[..|all| - 6] == values;
  }

  lemma NoOneInChars(values: Data)
    ensures forall i :: 0 <= i < |values| ==> Chars(values)[i] != '1'
  {
    hide CharOf;
    forall i | 0 <= i < |values|
      ensures Chars(values)[i] != '1'
    {
      SymbolChar(values[i]);
    }
  }

  /** A string is decoded to a prefix and data exactly if, apart from case, it is their encoding, the prefix is not
      empty, and the string has at most 90 characters, all printable and not of mixed case. */
  lemma DecodedIff(s: string, hrp: string, values: Data)
    ensures Decoded(s) == Some((hrp, values)) <==>
            WellWritten(s) && |s| <= 90 && hrp != "" && Lower(s) == Encoded(hrp, values)
  {
    hide Encoded, Symbols, LastOne, WellWritten, Verifies, CharactersOk;
    if Decoded(s) == Some((hrp, values)) {
      CharactersIff(s);
      LastOneFrom(s);
      EncodeDecoded(s);
    } else if WellWritten(s) && |s| <= 90 && hrp != "" && Lower(s) == Encoded(hrp, values) {
      DecodeWritten(s, hrp, values);
      assert false;
    }
  }

  // ----- a known encoding -----

  lemma KnownSteps()
    ensures Step(1, 3) == 0x23 && Step(0x23, 0) == 0x460 && Step(0x460, 1) == 0x8c01 && Step(0x8c01, 0) == 0x118020
    ensures Step(0x118020, 0) == 0x2300400 && Step(0x2300400, 0) == 0x3d6ad7b2 && Step(0x3d6ad7b2, 0) == 0x2fd30b9
    ensures Step(0x2fd30b9, 0) == 0x24cc4092 && Step(0x24cc4092, 0) == 0x15ccfe9e
  {
  }

  lemma PolyNext(v: Data, x: bv5)
    ensures PolyFrom(1, v + [x]) == Step(PolyFrom(1, v), x)
  {
    hide Step;
    assert (v + [x])[..|v|] == v;
  }

  lemma KnownState()
    ensures PolyFrom(1, [3, 0, 1] + Zeros(6)) == 0x15ccfe9e
  {
    hide Step, PolyFrom;
    KnownSteps();
    assert PolyFrom(1, []) == 1 by { PolyNone(); }
    var a: Data, b: Data, c: Data, d: Data := [3], [3, 0], [3, 0, 1], [3, 0, 1, 0];
    var e: Data, f: Data, g: Data, h: Data := d + [0], d + [0, 0], d + [0, 0, 0], d + [0, 0, 0, 0];
    PolyNext([], 3);
    PolyNext(a, 0);
    PolyNext(b, 1);
    PolyNext(c, 0);
    PolyNext(d, 0);
    PolyNext(e, 0);
    PolyNext(f, 0);
    PolyNext(g, 0);
    PolyNext(h, 0);
    assert [] + [3] == a && a + [0] == b && b + [1] == c && c + [0] == d;
    assert e + [0] == f && f + [0] == g && g + [0] == h;
    assert Zeros(6) == [0, 0, 0, 0, 0, 0] by { SixZeros(); }
    assert h + [0] == c + Zeros(6);
  }

  lemma PolyNone()
    ensures PolyFrom(1, []) == 1
  {
  }

  lemma SixZeros()
    ensures Zeros(6) == [0, 0, 0, 0, 0, 0]
  {
    assert Zeros(2) == [0, 0];
    assert Zeros(4) == [0, 0, 0, 0];
  }

  lemma KnownSymbols()
    ensures Unpack(Xor(0x15ccfe9e, 1)) == [10, 28, 25, 31, 20, 31]
  {
  }

  lemma KnownCharacters()
    ensures Chars([10, 28, 25, 31, 20, 31]) == "2uel5l"
    ensures Expanded("a") == [3, 0, 1]
  {
  }

  /** The prefix "a" without data is encoded as in the first test vector of BIP 173. */
  lemma KnownEncoding()
    ensures Encoded("a", []) == "a12uel5l" && Decoded("A12UEL5L") == Some(("a", []))
  {
    hide PolyFrom, Unpack, Chars, Expanded, Decoded, WellWritten;
    KnownState();
    KnownSymbols();
    KnownCharacters();
    var none: Data := [];
    assert [3, 0, 1] + none == [3, 0, 1] && none + ChecksumOf([3, 0, 1]) == ChecksumOf([3, 0, 1]);
    assert Lower("A12UEL5L") == "a12uel5l";
    assert WellWritten("A12UEL5L") by { KnownCase(); }
    DecodedIff("A12UEL5L", "a", []);
  }

  lemma KnownCase()
    ensures WellWritten("A12UEL5L")
  {
  }
}
