/**
  `assemble_flag_emoji`: a country code becomes a flag by mapping each letter
  A to Z to its Unicode regional indicator symbol (U+1F1E6 to U+1F1FF); every
  other character passes through unchanged.
 */
module Flag {

  /** The code point of the regional indicator symbol for 'A'. */
  const RegionalIndicatorA := 0x1F1E6

  /** The `symbols` table of `assemble_flag_emoji`. */
  const Symbols: map<char, char> := map[
    'A' := '\U{1F1E6}',
    'B' := '\U{1F1E7}',
    'C' := '\U{1F1E8}',
    'D' := '\U{1F1E9}',
    'E' := '\U{1F1EA}',
    'F' := '\U{1F1EB}',
    'G' := '\U{1F1EC}',
    'H' := '\U{1F1ED}',
    'I' := '\U{1F1EE}',
    'J' := '\U{1F1EF}',
    'K' := '\U{1F1F0}',
    'L' := '\U{1F1F1}',
    'M' := '\U{1F1F2}',
    'N' := '\U{1F1F3}',
    'O' := '\U{1F1F4}',
    'P' := '\U{1F1F5}',
    'Q' := '\U{1F1F6}',
    'R' := '\U{1F1F7}',
    'S' := '\U{1F1F8}',
    'T' := '\U{1F1F9}',
    'U' := '\U{1F1FA}',
    'V' := '\U{1F1FB}',
    'W' := '\U{1F1FC}',
    'X' := '\U{1F1FD}',
    'Y' := '\U{1F1FE}',
    'Z' := '\U{1F1FF}'
  ]

  predicate IsUpper(c: char) {
    'A' <= c <= 'Z'
  }

  predicate IsRegionalIndicator(c: char) {
    '\U{1F1E6}' <= c <= '\U{1F1FF}'
  }

  /** The regional indicator symbol of an upper-case letter, by arithmetic. */
  function RegionalIndicator(c: char): (r: char)
    requires IsUpper(c)
    ensures IsRegionalIndicator(r)
  {
    (RegionalIndicatorA + (c as int - 'A' as int)) as char
  }

  /** The table holds exactly the 26 letters, each mapped to its regional indicator. */
  lemma SymbolsTable()
    ensures forall c :: c in Symbols <==> IsUpper(c)
    ensures forall c :: IsUpper(c) ==> c in Symbols && Symbols[c] == RegionalIndicator(c)
  {
  }

  /** `symbols.get(char, char)`. */
  function Symbol(c: char): (r: char)
    ensures r == if IsUpper(c) then RegionalIndicator(c) else c
  {
    SymbolsTable();
    if c in Symbols then Symbols[c] else c
  }

  /** `assemble_flag_emoji`: one output character per input character. */
  function AssembleFlagEmoji(code: string): (flag: string)
    ensures |flag| == |code|
    ensures forall i :: 0 <= i < |code| ==>
              flag[i] == if IsUpper(code[i]) then RegionalIndicator(code[i]) else code[i]
  {
    if code == [] then ""
    else [Symbol(code[0])] + AssembleFlagEmoji(code[1..])
  }

  /** The letter a regional indicator symbol stands for; other characters unchanged. */
  function LetterOf(c: char): char {
    if IsRegionalIndicator(c) then ('A' as int + (c as int - RegionalIndicatorA)) as char else c
  }

  /** Reading a flag back, symbol by symbol. */
  function FlagLetters(flag: string): (code: string)
    ensures |code| == |flag|
  {
    if flag == [] then "" else [LetterOf(flag[0])] + FlagLetters(flag[1..])
  }

  lemma {:induction false} FlagLettersAt(flag: string, i: nat)
    requires i < |flag|
    ensures FlagLetters(flag)[i] == LetterOf(flag[i])
  {
    if i > 0 {
      FlagLettersAt(flag[1..], i - 1);
    }
  }

  /** The country code can be read back from the flag, provided the code did
      not already contain regional indicator symbols (those pass through, and
      would be read back as letters). */
  lemma FlagRoundTrip(code: string)
    requires forall i :: 0 <= i < |code| ==> !IsRegionalIndicator(code[i])
    ensures FlagLetters(AssembleFlagEmoji(code)) == code
  {
    var flag := AssembleFlagEmoji(code);
    forall i | 0 <= i < |code| ensures FlagLetters(flag)[i] == code[i] {
      FlagLettersAt(flag, i);
      LetterOfSymbol(code[i]);
    }
  }

  /** Reading back one mapped character. */
  lemma LetterOfSymbol(c: char)
    requires !IsRegionalIndicator(c)
    ensures LetterOf(if IsUpper(c) then RegionalIndicator(c) else c) == c
  {
  }

  /** "US" gives the US flag; the "-" sentinel and the empty code pass through. */
  lemma FlagExamples()
    ensures AssembleFlagEmoji("US") == "\U{1F1FA}\U{1F1F8}"
    ensures AssembleFlagEmoji("-") == "-"
    ensures AssembleFlagEmoji("") == ""
  {
  }
}
