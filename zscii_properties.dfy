/** Properties of the Z-character decoder: output length, alphabet shifts and the characters produced. */
module ZsciiProperties {
  import opened Words
  import opened Zscii

  /** The loop only appends to the text built so far, at most one character per Z-character. */
  lemma {:induction false} FoldAppends(initial: Alphabet, version: nat, hasTable: bool, alphabet: Alphabet, str: string, cs: seq<ZChar>)
    requires version >= 1
    ensures var r := Fold(initial, version, hasTable, alphabet, str, cs);
            |str| <= |r| <= |str| + |cs| && r[..|str|] == str
    decreases |cs|
  {
    if cs != [] {
      var step := Step(initial, version, hasTable, alphabet, cs[0]);
      FoldAppends(initial, version, hasTable, step.0, str + step.1, cs[1..]);
      var r := Fold(initial, version, hasTable, alphabet, str, cs);
      assert r[..|str|] == r[..|str + step.1|][..|str|];
    }
  }

  /** The output has at most one character per input Z-character. */
  lemma OutputLength(initial: Alphabet, version: nat, zchars: seq<ZChar>, hasTable: bool)
    requires version >= 1
    ensures |Translation(initial, version, zchars, hasTable)| <= |zchars|
  {
    FoldAppends(initial, version, hasTable, initial, "", zchars);
  }

  /** Z-character 0 is a space in every alphabet and version, and resets the alphabet. */
  lemma SpaceAlwaysEmitted(initial: Alphabet, version: nat, hasTable: bool, alphabet: Alphabet)
    requires version >= 1
    ensures Step(initial, version, hasTable, alphabet, 0) == (initial, " ")
  {
  }

  /**
   * 4 (and 2 before version 3) moves to the next alphabet, 5 (and 3 before
   * version 3) to the previous one, both modulo 3 and without output; the
   * two undo each other.
   */
  lemma ShiftsRotate(initial: Alphabet, version: nat, hasTable: bool, alphabet: Alphabet, up: ZChar, down: ZChar)
    requires version >= 1
    requires up == 4 || (version < 3 && up == 2)
    requires down == 5 || (version < 3 && down == 3)
    ensures Step(initial, version, hasTable, alphabet, up) == ((alphabet + 1) % 3, "")
    ensures Step(initial, version, hasTable, alphabet, down) == ((alphabet + 2) % 3, "")
    ensures Step(initial, version, hasTable, Step(initial, version, hasTable, alphabet, up).0, down).0 == alphabet
    ensures Step(initial, version, hasTable, Step(initial, version, hasTable, alphabet, down).0, up).0 == alphabet
  {
  }

  /**
   * Abbreviation codes produce nothing and keep the alphabet (1 resets it, as
   * every code below 2 does); the Z-character after one is decoded as usual
   * rather than taken as the abbreviation's index.
   */
  lemma AbbreviationsEmitNothing(initial: Alphabet, version: nat, hasTable: bool, alphabet: Alphabet, str: string, c: ZChar, rest: seq<ZChar>)
    requires version >= 1 && IsAbbreviation(version, c)
    ensures Step(initial, version, hasTable, alphabet, c) == (if c == 1 then initial else alphabet, "")
    ensures Fold(initial, version, hasTable, alphabet, str, [c] + rest) ==
            Fold(initial, version, hasTable, if c == 1 then initial else alphabet, str, rest)
  {
    assert ([c] + rest)[1..] == rest;
    assert str + "" == str;
  }

  /**
   * From version 2 to 4 (and later without a custom table) Z-characters 6 to
   * 31 are letters of the current alphabet, except 6 in A2, the unimplemented
   * 10-bit escape, which produces nothing.
   */
  lemma RegularCharacters(initial: Alphabet, version: nat, hasTable: bool, alphabet: Alphabet, c: ZChar)
    requires version >= 2 && (version <= 4 || !hasTable) && c >= 6
    ensures Step(initial, version, hasTable, alphabet, c) ==
            (initial, if alphabet == 2 && c == 6 then "" else [AlphabetTables[alphabet][c - 6]])
  {
  }

  /** Version 1: Z-character 1 is a new line and A2 is the version 1 table. */
  lemma VersionOneCharacters(initial: Alphabet, hasTable: bool, alphabet: Alphabet, c: ZChar)
    ensures Step(initial, 1, hasTable, alphabet, 1) == (initial, "\n")
    ensures c >= 7 && alphabet == 2 ==> Step(initial, 1, hasTable, alphabet, c) == (initial, [V1A2[c - 6]])
  {
  }

  /** From version 5 on, with a custom table passed, letters are not produced at all. */
  lemma TableSuppressesCharacters(initial: Alphabet, version: nat, alphabet: Alphabet, c: ZChar)
    requires version >= 5 && c >= 6
    ensures Step(initial, version, true, alphabet, c) == (initial, "")
  {
  }

  /** The letters of a 26-letter table that Z-characters 6 to 31 stand for. */
  function Letters(table: string, zs: seq<ZChar>): (r: string)
    requires |table| == 26
    requires forall i :: 0 <= i < |zs| ==> zs[i] >= 6
    ensures |r| == |zs|
    ensures forall i :: 0 <= i < |zs| ==> r[i] == table[zs[i] - 6]
    decreases |zs|
  {
    if zs == [] then "" else [table[zs[0] - 6]] + Letters(table, zs[1..])
  }

  lemma {:induction false} FoldLetters(initial: Alphabet, version: nat, hasTable: bool, str: string, zs: seq<ZChar>)
    requires version >= 2 && (version <= 4 || !hasTable) && initial < 2
    requires forall i :: 0 <= i < |zs| ==> zs[i] >= 6
    ensures Fold(initial, version, hasTable, initial, str, zs) == str + Letters(AlphabetTables[initial], zs)
    decreases |zs|
  {
    if zs != [] {
      var letter := LetterStep(initial, version, hasTable, str, zs);
      FoldLetters(initial, version, hasTable, str + letter, zs[1..]);
      LettersCons(AlphabetTables[initial], zs, str);
    }
  }

  lemma LetterStep(initial: Alphabet, version: nat, hasTable: bool, str: string, zs: seq<ZChar>) returns (letter: string)
    requires version >= 2 && (version <= 4 || !hasTable) && initial < 2
    requires zs != [] && zs[0] >= 6
    ensures letter == [AlphabetTables[initial][zs[0] - 6]]
    ensures Fold(initial, version, hasTable, initial, str, zs) == Fold(initial, version, hasTable, initial, str + letter, zs[1..])
  {
    letter := [AlphabetTables[initial][zs[0] - 6]];
    RegularCharacters(initial, version, hasTable, initial, zs[0]);
  }

  lemma LettersCons(table: string, zs: seq<ZChar>, str: string)
    requires |table| == 26 && zs != []
    requires forall i :: 0 <= i < |zs| ==> zs[i] >= 6
    ensures str + [table[zs[0] - 6]] + Letters(table, zs[1..]) == str + Letters(table, zs)
  {
  }

  /**
   * Plain text: Z-characters 6 to 31 in alphabet A0 or A1 translate one for
   * one into the letters of that alphabet.
   */
  lemma PlainText(initial: Alphabet, version: nat, hasTable: bool, zs: seq<ZChar>)
    requires version >= 2 && (version <= 4 || !hasTable) && initial < 2
    requires forall i :: 0 <= i < |zs| ==> zs[i] >= 6
    ensures var r := Translation(initial, version, zs, hasTable);
            |r| == |zs| && forall i :: 0 <= i < |zs| ==> r[i] == AlphabetTables[initial][zs[i] - 6]
  {
    FoldLetters(initial, version, hasTable, "", zs);
    var table := AlphabetTables[initial];
    assert "" + Letters(table, zs) == Letters(table, zs);
  }

  /** A character one of the alphabet tables holds. */
  predicate InTables(ch: char)
  {
    ch in AlphabetTables[0] || ch in AlphabetTables[1] || ch in AlphabetTables[2] || ch in V1A2
  }

  lemma StepDrawsFromTables(initial: Alphabet, version: nat, hasTable: bool, alphabet: Alphabet, c: ZChar)
    requires version >= 1
    ensures AllInTables(Step(initial, version, hasTable, alphabet, c).1)
  {
    var out := Step(initial, version, hasTable, alphabet, c).1;
    if out != [] {
      var ch := out[0];
      if ch == ' ' {
        assert AlphabetTables[2][0] == ' ';
      } else if ch == '\n' {
        assert AlphabetTables[2][1] == '\n';
      } else if version == 1 && alphabet == 2 {
        assert ch == V1A2[c - 6];
      } else {
        assert ch == AlphabetTables[alphabet][c - 6];
      }
    }
  }

  predicate AllInTables(s: string)
  {
    forall i :: 0 <= i < |s| ==> InTables(s[i])
  }

  /** Every character of the output comes from one of the alphabet tables. */
  lemma {:induction false} FoldDrawsFromTables(initial: Alphabet, version: nat, hasTable: bool, alphabet: Alphabet, str: string, cs: seq<ZChar>)
    requires version >= 1
    requires AllInTables(str)
    ensures AllInTables(Fold(initial, version, hasTable, alphabet, str, cs))
    decreases |cs|
  {
    if cs != [] {
      var step := Step(initial, version, hasTable, alphabet, cs[0]);
      StepDrawsFromTables(initial, version, hasTable, alphabet, cs[0]);
      var next := str + step.1;
      assert AllInTables(next) by {
        forall i | 0 <= i < |next|
          ensures InTables(next[i])
        {
          if i >= |str| {
            assert next[i] == step.1[i - |str|];
          }
        }
      }
      FoldDrawsFromTables(initial, version, hasTable, step.0, next, cs[1..]);
      assert Fold(initial, version, hasTable, alphabet, str, cs) == Fold(initial, version, hasTable, step.0, next, cs[1..]);
    }
  }

  lemma OutputFromTables(initial: Alphabet, version: nat, zchars: seq<ZChar>, hasTable: bool)
    requires version >= 1
    ensures AllInTables(Translation(initial, version, zchars, hasTable))
  {
    FoldDrawsFromTables(initial, version, hasTable, initial, "", zchars);
  }
}
