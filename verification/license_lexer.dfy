/** Licence strings: normalising a spelling, and cutting an expression into tokens. */
module LicenseLexer {
  import opened Text

  /** The spellings table: a lower-case spelling and the identifier it stands for. */
  type Spellings = map<string, string>

  // --- Normalising ------------------------------------------------------------------------

  function StripQuotesLeft(s: string): string {
    if s != [] && s[0] == '"' then StripQuotesLeft(s[1..]) else s
  }

  function StripQuotesRight(s: string): string {
    if s != [] && s[|s| - 1] == '"' then StripQuotesRight(s[..|s| - 1]) else s
  }

  function StripDots(s: string): (r: string)
    ensures r <= s
    ensures r != [] ==> r[|r| - 1] != '.'
  {
    if s != [] && s[|s| - 1] == '.' then StripDots(s[..|s| - 1]) else s
  }

  /** Drops `word`, blanks and "::" from the front, in any case, when they are there. */
  function DropPrefix(s: string, word: string): string {
    if StartsWith(Lower(s), word) then
      var rest := LStrip(s[|word|..]);
      if StartsWith(rest, "::") then LStrip(rest[2..]) else s
    else s
  }

  function Normalise(table: Spellings, atom: string): string {
    var text := StripDots(StripQuotesRight(StripQuotesLeft(Strip(atom))));
    var bare := DropPrefix(DropPrefix(text, "license"), "osi approved");
    if Lower(bare) in table then table[Lower(bare)] else bare
  }

  // --- Tokens -----------------------------------------------------------------------------

  function SpaceCount(s: string): nat { |s| - |LStrip(s)| }

  /** Length of the keyword at the front, in any case; 0 when there is none. */
  function KeywordLength(s: string): (n: nat)
    ensures n <= |s|
  {
    if StartsWith(Lower(s), "and") then 3
    else if StartsWith(Lower(s), "or") then 2
    else if StartsWith(Lower(s), "with") then 4
    else 0
  }

  /** Length of a separator at the front: blanks, a keyword, blanks; 0 when there is none. */
  function SeparatorLength(s: string): (n: nat)
    ensures n <= |s|
  {
    var a := SpaceCount(s);
    var k := KeywordLength(s[a..]);
    var b := SpaceCount(s[a + k..]);
    if a > 0 && k > 0 && b > 0 then a + k + b else 0
  }

  predicate IsParen(c: char) { c == '(' || c == ')' }

  function Flush(text: string): seq<string> {
    if IsBlank(text) then [] else [text]
  }

  /** The tokens of `s`, when `text` has been read since the last separator. */
  function Lex(s: string, text: string): seq<string>
    decreases |s|
  {
    if s == [] then Flush(text)
    else if IsParen(s[0]) then Flush(text) + [[s[0]]] + Lex(s[1..], [])
    else
      var n := SeparatorLength(s);
      if n > 0 then Flush(text) + [s[..n]] + Lex(s[n..], [])
      else Lex(s[1..], text + [s[0]])
  }

  /** The pieces between semicolons; never empty. */
  function Pieces(s: string): (ps: seq<string>)
    ensures |ps| > 0
  {
    if s == [] then [[]]
    else
      var rest := Pieces(s[1..]);
      if s[0] == ';' then [[]] + rest else [[s[0]] + rest[0]] + rest[1..]
  }

  function NormaliseAll(table: Spellings, pieces: seq<string>): seq<string> {
    seq(|pieces|, i requires 0 <= i < |pieces| => Normalise(table, pieces[i]))
  }

  function Tokens(table: Spellings, expression: string): seq<string> {
    Lex(Join(" OR ", NormaliseAll(table, Pieces(expression))), [])
  }

  predicate IsKeyword(token: string, word: string) { Lower(Strip(token)) == word }
}
