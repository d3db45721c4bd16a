/** The string steps `on_drop` applies to a dropped path before it parses
    the file: strip surrounding whitespace, delete `{` and `}`, fall back to
    a whitespace-collapsed spelling when the cleaned path does not exist,
    and accept only an existing path whose suffix lower-cases to `.xlsx`.

    Whitespace is the fixed ASCII set Python's `str.isspace` accepts
    (space, tab through carriage return, and the four separators 0x1C-0x1F);
    lower-casing is ASCII only; and `/` is the only path separator.
 */
module DropPath {
  import opened Values

  predicate IsSpace(c: char) {
    c == ' ' || 9 <= c as int <= 13 || 28 <= c as int <= 31
  }

  predicate IsBrace(c: char) {
    c == '{' || c == '}'
  }

  /** Where the text of `s` starts: the length of its leading whitespace. */
  function TextStart(s: string): (i: nat)
    ensures i <= |s|
    ensures forall k :: 0 <= k < i ==> IsSpace(s[k])
    ensures i == |s| || !IsSpace(s[i])
  {
    if s != [] && IsSpace(s[0]) then 1 + TextStart(s[1..]) else 0
  }

  /** Where the text of `s` ends: its length less its trailing whitespace. */
  function TextEnd(s: string): (j: nat)
    ensures j <= |s|
    ensures forall k :: j <= k < |s| ==> IsSpace(s[k])
    ensures j == 0 || !IsSpace(s[j - 1])
  {
    if s != [] && IsSpace(s[|s| - 1]) then TextEnd(s[..|s| - 1]) else |s|
  }

  /** `str.strip()`: the text between the leading and the trailing
      whitespace, or nothing when `s` is all whitespace. */
  function Strip(s: string): (r: string)
    ensures |r| <= |s|
    ensures r != [] ==> !IsSpace(r[0]) && !IsSpace(r[|r| - 1])
  {
    var i := TextStart(s);
    var j := TextEnd(s);
    if i < j then s[i..j] else []
  }

  /** `s` with every `{` and `}` deleted and every other character kept in order. */
  function RemoveBraces(s: string): (r: string)
    ensures forall k :: 0 <= k < |r| ==> !IsBrace(r[k])
  {
    if s == [] then []
    else (if IsBrace(s[0]) then [] else [s[0]]) + RemoveBraces(s[1..])
  }

  /** The first cleaning step: strip, then delete the braces. */
  function Clean(raw: string): (r: string)
    ensures forall k :: 0 <= k < |r| ==> !IsBrace(r[k])
  {
    RemoveBraces(Strip(raw))
  }

  /** The longest prefix of `s` holding no whitespace. */
  function Word(s: string): (w: string)
    ensures |w| <= |s| && w == s[..|w|]
    ensures forall k :: 0 <= k < |w| ==> !IsSpace(w[k])
    ensures |w| == |s| || IsSpace(s[|w|])
  {
    if s == [] || IsSpace(s[0]) then [] else [s[0]] + Word(s[1..])
  }

  /** A word of `str.split()`: non-empty and free of whitespace. */
  predicate IsWord(w: string) {
    w != [] && forall k :: 0 <= k < |w| ==> !IsSpace(w[k])
  }

  /** `str.split()` with no separator: the maximal whitespace-free runs. */
  function Words(s: string): (ws: seq<string>)
    ensures forall k :: 0 <= k < |ws| ==> IsWord(ws[k])
    decreases |s|
  {
    if s == [] then []
    else if IsSpace(s[0]) then Words(s[1..])
    else
      var w := Word(s);
      [w] + Words(s[|w|..])
  }

  /** `" ".join(ws)`. */
  function Join(ws: seq<string>): string {
    if ws == [] then []
    else if |ws| == 1 then ws[0]
    else ws[0] + " " + Join(ws[1..])
  }

  /** `" ".join(s.split())`. */
  function Collapse(s: string): string {
    Join(Words(s))
  }

  /** A spelling with no leading or trailing whitespace, no whitespace other
      than single spaces, and no two spaces in a row. */
  predicate Collapsed(s: string) {
    && (s == [] || (!IsSpace(s[0]) && !IsSpace(s[|s| - 1])))
    && (forall k :: 0 <= k < |s| && IsSpace(s[k]) ==> s[k] == ' ')
    && (forall k :: 0 <= k < |s| - 1 ==> !(IsSpace(s[k]) && IsSpace(s[k + 1])))
  }

  /** Where `p` ends once its trailing separators are dropped. */
  function SlashEnd(p: string): (j: nat)
    ensures j <= |p|
    ensures forall k :: j <= k < |p| ==> p[k] == '/'
    ensures j == 0 || p[j - 1] != '/'
  {
    if p != [] && p[|p| - 1] == '/' then SlashEnd(p[..|p| - 1]) else |p|
  }

  /** `Path.name`: the last component, after dropping trailing separators.
      It is the longest separator-free tail of `p` without those separators. */
  function Name(p: string): (r: string)
    ensures var j := SlashEnd(p);
      && |r| <= j && r == p[j - |r|..j]
      && (forall k :: 0 <= k < |r| ==> r[k] != '/')
      && (|r| == j || p[j - |r| - 1] == '/')
  {
    AfterLastSlash(p[..SlashEnd(p)])
  }

  /** The part of `p` after its last `/`, or all of `p` without one. */
  function AfterLastSlash(p: string): (r: string)
    ensures |r| <= |p| && r == p[|p| - |r|..]
    ensures forall k :: 0 <= k < |r| ==> r[k] != '/'
    ensures |r| == |p| || p[|p| - |r| - 1] == '/'
  {
    if p == [] then []
    else if p[|p| - 1] == '/' then []
    else AfterLastSlash(p[..|p| - 1]) + [p[|p| - 1]]
  }

  /** `str.rfind('.')`: the position of the last `.`, if any. */
  function LastDot(s: string): (r: Option<nat>)
    ensures r.Some? ==> r.value < |s| && s[r.value] == '.'
    ensures r.Some? ==> forall k :: r.value < k < |s| ==> s[k] != '.'
    ensures r.None? ==> forall k :: 0 <= k < |s| ==> s[k] != '.'
  {
    if s == [] then None
    else if s[|s| - 1] == '.' then Some(|s| - 1)
    else LastDot(s[..|s| - 1])
  }

  /** The suffix of a file name: from its last dot, unless that dot opens
      the name or ends it. */
  function NameSuffix(n: string): (r: string)
    ensures r != [] ==> 2 <= |r| < |n| && r == n[|n| - |r|..] && r[0] == '.'
    ensures forall k :: 0 < k < |r| ==> r[k] != '.'
  {
    match LastDot(n)
    case Some(i) => if 0 < i < |n| - 1 then n[i..] else []
    case None => []
  }

  /** `Path.suffix`. */
  function Suffix(p: string): string {
    NameSuffix(Name(p))
  }

  /** ASCII `str.lower()`. */
  function Lower(s: string): (r: string)
    ensures |r| == |s|
    ensures forall k :: 0 <= k < |s| ==> r[k] == (if 'A' <= s[k] <= 'Z' then (s[k] as int + 32) as char else s[k])
  {
    seq(|s|, k requires 0 <= k < |s| => if 'A' <= s[k] <= 'Z' then (s[k] as int + 32) as char else s[k])
  }

  /** The one suffix the script accepts. */
  const Xlsx: string := ".xlsx"

  /** The path `on_drop` ends up checking: the cleaned path when it exists,
      otherwise its whitespace-collapsed spelling. `onDisk` stands for
      `Path.exists()` on the file system. */
  function Candidate(raw: string, onDisk: string -> bool): string {
    var cleaned := Clean(raw);
    if onDisk(cleaned) then cleaned else Collapse(cleaned)
  }

  /** The path `on_drop` parses, or `None` when it shows "Unsupported File". */
  function Resolve(raw: string, onDisk: string -> bool): Option<string> {
    var path := Candidate(raw, onDisk);
    if Lower(Suffix(path)) == Xlsx && onDisk(path) then Some(path) else None
  }
}
