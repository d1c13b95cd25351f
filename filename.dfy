/** How `handleExport` turns the diagram source into the name of the saved file:
    the first line of the source, stripped of every character that is neither a
    word character nor whitespace, trimmed, with each whitespace run replaced by
    one hyphen and lower-cased; `mermaid-diagram` when that leaves nothing. */
module FileNames {

  /** `\w` in a JavaScript regular expression without the `u` flag: ASCII letters,
      ASCII digits and the underscore (the `i` flag does not widen it). */
  predicate IsWordChar(c: char) {
    ('a' <= c <= 'z') || ('A' <= c <= 'Z') || ('0' <= c <= '9') || c == '_'
  }

  /** `\s` in a JavaScript regular expression, which is also the set that
      `String.prototype.trim` removes: the ECMAScript WhiteSpace and
      LineTerminator code points. */
  predicate IsSpace(c: char) {
    ('\t' <= c <= '\r') || c == ' '
    || ('\U{00A0}' <= c && (c == '\U{00A0}' || c == '\U{1680}' || ('\U{2000}' <= c <= '\U{200A}')
                             || c == '\U{2028}' || c == '\U{2029}' || c == '\U{202F}' || c == '\U{205F}'
                             || c == '\U{3000}' || c == '\U{FEFF}'))
  }

  /** What the character class `[^\w\s]` does not match, so what survives the first replace. */
  predicate Kept(c: char) { IsWordChar(c) || IsSpace(c) }

  predicate NotSpace(c: char) { !IsSpace(c) }

  predicate NotWordChar(c: char) { !IsWordChar(c) }

  predicate NotHyphen(c: char) { c != '-' }

  predicate HasWordChar(s: string) {
    exists i :: 0 <= i < |s| && IsWordChar(s[i])
  }

  /** The characters a cleaned name can be made of. */
  predicate IsNameChar(c: char) {
    ('a' <= c <= 'z') || ('0' <= c <= '9') || c == '_' || c == '-'
  }

  /** The shape of a cleaned name: non-empty, no hyphen at either end and never two in a row. */
  predicate WellHyphenated(s: string) {
    && s != []
    && s[0] != '-'
    && s[|s| - 1] != '-'
    && forall i, j :: 0 <= i && j == i + 1 < |s| && s[i] == '-' ==> s[j] != '-'
  }

  /** The characters of `s` that satisfy `p`, in order. */
  function Filter(s: string, p: char -> bool): (r: string)
    ensures |r| <= |s|
    ensures forall i :: 0 <= i < |r| ==> p(r[i])
  {
    if s == [] then [] else (if p(s[0]) then [s[0]] else []) + Filter(s[1..], p)
  }

  /** `code.split('\n')[0]`: the text before the first line feed. */
  function FirstLine(code: string): (line: string)
    ensures line <= code
    ensures '\n' !in line
    ensures line == code || code[|line|] == '\n'
  {
    if code == [] || code[0] == '\n' then [] else [code[0]] + FirstLine(code[1..])
  }

  /** `.replace(/[^\w\s]/gi, '')` */
  function StripSymbols(s: string): (r: string)
    ensures |r| <= |s|
    ensures forall i :: 0 <= i < |r| ==> IsWordChar(r[i]) || IsSpace(r[i])
  {
    Filter(s, Kept)
  }

  /** Leading whitespace removed. */
  function TrimStart(s: string): (r: string)
    ensures |r| <= |s| && r == s[|s| - |r|..]
    ensures forall i :: 0 <= i < |s| - |r| ==> IsSpace(s[i])
    ensures r != [] ==> !IsSpace(r[0])
  {
    if s != [] && IsSpace(s[0]) then TrimStart(s[1..]) else s
  }

  /** Trailing whitespace removed. */
  function TrimEnd(s: string): (r: string)
    ensures r <= s
    ensures forall i :: |r| <= i < |s| ==> IsSpace(s[i])
    ensures r != [] ==> !IsSpace(r[|r| - 1])
  {
    if s != [] && IsSpace(s[|s| - 1]) then TrimEnd(s[..|s| - 1]) else s
  }

  /** `.trim()` */
  function Trim(s: string): (r: string)
    ensures r != [] ==> !IsSpace(r[0]) && !IsSpace(r[|r| - 1])
  {
    TrimEnd(TrimStart(s))
  }

  /** `.replace(/\s+/g, '-')`: every maximal run of whitespace becomes one hyphen. */
  function HyphenateSpaces(s: string): (r: string)
    ensures |r| <= |s|
    decreases |s|
  {
    if s == [] then []
    else if IsSpace(s[0]) then ['-'] + HyphenateSpaces(TrimStart(s))
    else [s[0]] + HyphenateSpaces(s[1..])
  }

  /** ASCII lower-casing of one character. */
  function LowerChar(c: char): char {
    if 'A' <= c <= 'Z' then (c as int - 'A' as int + 'a' as int) as char else c
  }

  /** `.toLowerCase()` on the strings it is applied to here, which by then hold
      only ASCII word characters and hyphens (lemma CleanNameAlphabet). */
  function ToLower(s: string): (r: string)
    ensures |r| == |s|
    ensures forall i :: 0 <= i < |r| ==> !('A' <= r[i] <= 'Z')
    ensures forall i :: 0 <= i < |s| && !('A' <= s[i] <= 'Z') ==> r[i] == s[i]
    ensures forall i :: 0 <= i < |s| && 'A' <= s[i] <= 'Z' ==> r[i] as int == s[i] as int + 32
  {
    seq(|s|, i requires 0 <= i < |s| => LowerChar(s[i]))
  }

  /** The whole cleaning chain applied to the first line. */
  function CleanName(line: string): string {
    ToLower(HyphenateSpaces(Trim(StripSymbols(line))))
  }

  const DefaultBase: string := "mermaid-diagram"

  /** The base name: the cleaned first line, or `mermaid-diagram` when the first
      line is empty or cleans to nothing. */
  function BaseName(code: string): string {
    var line := FirstLine(code);
    if line == [] then DefaultBase
    else
      var clean := CleanName(line);
      if clean == [] then DefaultBase else clean
  }

  /** The name the file is saved under: the base name, a dot and the extension. */
  function FileName(code: string, ext: string): string {
    BaseName(code) + "." + ext
  }
}
