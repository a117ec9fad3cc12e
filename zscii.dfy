/**
 * `ZSCII.translate` (lib/gruesome/z/zscii.rb): Z-characters to text. A
 * single pass keeps the current alphabet: 4 and 5 (and 2 and 3 before
 * version 3) shift it, the abbreviation codes and the 10-bit escape are
 * not implemented and produce nothing, and every other Z-character yields at
 * most one character and puts the alphabet back to the initial one.
 */
module Zscii {
  import opened Words

  /** The three alphabets A0, A1 and A2. */
  type Alphabet = a: int | 0 <= a < 3

  const AlphabetTables: seq<string> := [
    "abcdefghijklmnopqrstuvwxyz",
    "ABCDEFGHIJKLMNOPQRSTUVWXYZ",
    " \n0123456789.,!?_#'\"/\\-:()"
  ]

  /** Alphabet A2 of version 1. */
  const V1A2: string := " 0123456789.,!?_#'\"/\\<-:()"

  predicate ShiftsUp(version: nat, c: ZChar) { (version < 3 && c == 2) || c == 4 }

  predicate ShiftsDown(version: nat, c: ZChar) { (version < 3 && c == 3) || c == 5 }

  /** The abbreviation codes, which the code leaves unimplemented. */
  predicate IsAbbreviation(version: nat, c: ZChar)
  {
    (version >= 2 && c == 1) || (version >= 3 && (c == 2 || c == 3))
  }

  /**
   * The "translate character" branch: what one Z-character that is neither
   * a shift nor an abbreviation adds to the output. `hasTable` says whether
   * a custom alphabet table was passed.
   */
  function Character(version: nat, alphabet: Alphabet, c: ZChar, hasTable: bool): (r: string)
    requires version >= 1
    requires !ShiftsUp(version, c) && !ShiftsDown(version, c) && !IsAbbreviation(version, c)
    ensures |r| <= 1
  {
    if alphabet == 2 && c == 6 then ""
    else if c == 0 then " "
    else if version == 1 && c == 1 then "\n"
    else if version == 1 && alphabet == 2 then [V1A2[c - 6]]
    else if version <= 4 || !hasTable then [AlphabetTables[alphabet][c - 6]]
    else ""
  }

  /** One iteration of the `each` loop: the next alphabet and the text added. */
  function Step(initial: Alphabet, version: nat, hasTable: bool, alphabet: Alphabet, c: ZChar): (r: (Alphabet, string))
    requires version >= 1
    ensures |r.1| <= 1
    ensures c < 2 || c > 5 ==> r.0 == initial
  {
    var (next, out) :=
      if ShiftsUp(version, c) then ((alphabet + 1) % 3, "")
      else if ShiftsDown(version, c) then ((alphabet - 1) % 3, "")
      else if IsAbbreviation(version, c) then (alphabet, "")
      else (alphabet, Character(version, alphabet, c, hasTable));
    (if c < 2 || c > 5 then initial else next, out)
  }

  /** The loop from the state (`alphabet`, `str`) over the remaining Z-characters `cs`. */
  function Fold(initial: Alphabet, version: nat, hasTable: bool, alphabet: Alphabet, str: string, cs: seq<ZChar>): string
    requires version >= 1
    decreases |cs|
  {
    if cs == [] then str
    else
      var step := Step(initial, version, hasTable, alphabet, cs[0]);
      Fold(initial, version, hasTable, step.0, str + step.1, cs[1..])
  }

  /** What `ZSCII.translate(initial, version, zchars, table)` returns. */
  function Translation(initial: Alphabet, version: nat, zchars: seq<ZChar>, hasTable: bool): string
    requires version >= 1
  {
    Fold(initial, version, hasTable, initial, "", zchars)
  }

  /** `ZSCII.translate`, the loop as written. */
  method Translate(initial: Alphabet, version: nat, zchars: seq<ZChar>, hasTable: bool) returns (str: string)
    requires version >= 1
    ensures str == Translation(initial, version, zchars, hasTable)
  {
    str := "";
    var alphabet: Alphabet := initial;
    var i := 0;
    while i < |zchars|
      invariant 0 <= i <= |zchars|
      invariant Fold(initial, version, hasTable, alphabet, str, zchars[i..]) == Translation(initial, version, zchars, hasTable)
    {
      var c := zchars[i];
      assert zchars[i..][1..] == zchars[i + 1..];
      ghost var step := Step(initial, version, hasTable, alphabet, c);
      ghost var before := str;
      if ShiftsUp(version, c) {
        alphabet := (alphabet + 1) % 3;
      } else if ShiftsDown(version, c) {
        alphabet := (alphabet - 1) % 3;
      } else if IsAbbreviation(version, c) {
      } else if alphabet == 2 && c == 6 {
      } else if c == 0 {
        str := str + " ";
      } else if version == 1 && c == 1 {
        str := str + "\n";
      } else if version == 1 && alphabet == 2 {
        str := str + [V1A2[c - 6]];
      } else if version <= 4 || !hasTable {
        str := str + [AlphabetTables[alphabet][c - 6]];
      }
      if c < 2 || c > 5 {
        alphabet := initial;
      }
      assert alphabet == step.0 && str == before + step.1;
      i := i + 1;
    }
    assert zchars[|zchars|..] == [];
  }
}
