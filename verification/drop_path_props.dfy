/** Properties of the dropped-path cleanup in `DropPath`: brace removal,
    the whitespace collapse and its round trip through `str.split()`, the
    `.xlsx` suffix test read as "the file name ends in .xlsx", and what an
    accepted path looks like.
 */
module DropPathProps {
  import opened Values
  import opened DropPath

  predicate NoBraces(s: string) {
    forall k :: 0 <= k < |s| ==> !IsBrace(s[k])
  }

  predicate AllWords(ws: seq<string>) {
    forall k :: 0 <= k < |ws| ==> IsWord(ws[k])
  }

  // ---------------------------------------------------------------------
  // Strip and braces
  // ---------------------------------------------------------------------

  /** Stripping leaves no whitespace at either end and removes nothing but
      whitespace: the result is the slice of the input between two runs of
      whitespace, and it is empty only when the input is all whitespace. */
  lemma StripTrims(s: string)
    ensures var r := Strip(s);
      && (r == [] || (!IsSpace(r[0]) && !IsSpace(r[|r| - 1])))
      && var i := TextStart(s);
      && i + |r| <= |s|
      && r == s[i..i + |r|]
      && (forall k :: 0 <= k < i ==> IsSpace(s[k]))
      && (forall k :: i + |r| <= k < |s| ==> IsSpace(s[k]))
    ensures Strip(s) == [] <==> forall k :: 0 <= k < |s| ==> IsSpace(s[k])
  {
    var i := TextStart(s);
    if i < TextEnd(s) {
      StripSlice(s);
      assert !IsSpace(s[i]);
    } else {
      StripEmpty(s);
    }
  }

  /** Text starting before the end of `s` ends after it starts. */
  lemma TextBounds(s: string)
    ensures TextStart(s) < |s| ==> TextStart(s) < TextEnd(s)
  {
    var i := TextStart(s);
    if i < |s| {
      assert !IsSpace(s[i]);
    }
  }

  /** When `s` holds text, its stripped form is that slice, bounded by
      non-space characters. */
  lemma StripSlice(s: string)
    requires TextStart(s) < TextEnd(s)
    ensures var i := TextStart(s); var j := TextEnd(s);
      && Strip(s) == s[i..j] && i + |Strip(s)| == j
      && Strip(s)[0] == s[i] && Strip(s)[j - i - 1] == s[j - 1]
  {
    var i := TextStart(s);
    var j := TextEnd(s);
    assert Strip(s) == s[i..j];
    SliceEnds(s, i, j);
  }

  /** A non-empty slice starts and ends with the characters at its bounds. */
  lemma SliceEnds(s: string, i: nat, j: nat)
    requires i < j <= |s|
    ensures |s[i..j]| == j - i && s[i..j][0] == s[i] && s[i..j][j - i - 1] == s[j - 1]
  {
  }

  /** When `s` holds no text, it is all whitespace and strips to nothing. */
  lemma StripEmpty(s: string)
    requires TextEnd(s) <= TextStart(s)
    ensures Strip(s) == [] && TextStart(s) == |s|
  {
    TextBounds(s);
  }

  /** Removing braces keeps the count of every character other than a brace. */
  lemma {:induction false} RemoveBracesCounts(s: string)
    ensures forall c :: !IsBrace(c) ==> multiset(RemoveBraces(s))[c] == multiset(s)[c]
    decreases |s|
  {
    if s != [] {
      RemoveBracesCounts(s[1..]);
      assert s == [s[0]] + s[1..];
    }
  }

  /** Removing braces changes a string exactly when it holds a brace. */
  lemma {:induction false} RemoveBracesFixesIff(s: string)
    ensures RemoveBraces(s) == s <==> NoBraces(s)
  {
    if NoBraces(s) {
      RemoveBracesKeepsBraceFree(s);
    }
  }

  lemma {:induction false} RemoveBracesKeepsBraceFree(s: string)
    requires NoBraces(s)
    ensures RemoveBraces(s) == s
  {
    if s != [] {
      RemoveBracesKeepsBraceFree(s[1..]);
    }
  }

  /** Brace removal keeps a single character unless it is a brace. */
  lemma RemoveBracesChar(c: char)
    ensures RemoveBraces([c]) == if IsBrace(c) then [] else [c]
  {
    assert [c][1..] == [];
  }

  /** Brace removal distributes over concatenation; with `RemoveBracesChar`
      this pins it down: the kept characters stay in their order. */
  lemma {:induction false} RemoveBracesAppend(a: string, b: string)
    ensures RemoveBraces(a + b) == RemoveBraces(a) + RemoveBraces(b)
    decreases |a|
  {
    if a == [] {
      assert a + b == b;
    } else {
      var x: string := if IsBrace(a[0]) then [] else [a[0]];
      assert (a + b)[0] == a[0];
      assert (a + b)[1..] == a[1..] + b;
      assert RemoveBraces(a + b) == x + RemoveBraces(a[1..] + b);
      RemoveBracesAppend(a[1..], b);
      assert x + (RemoveBraces(a[1..]) + RemoveBraces(b)) == (x + RemoveBraces(a[1..])) + RemoveBraces(b);
    }
  }

  // ---------------------------------------------------------------------
  // Words and Join
  // ---------------------------------------------------------------------

  /** The first word of a word followed by nothing or by whitespace is that word. */
  lemma {:induction false} WordOfWord(w: string, rest: string)
    requires IsWord(w)
    requires rest == [] || IsSpace(rest[0])
    ensures Word(w + rest) == w
    decreases |w|
  {
    var s := w + rest;
    if |w| > 1 {
      assert s[1..] == w[1..] + rest;
      WordOfWord(w[1..], rest);
    } else {
      assert s[1..] == rest;
    }
  }

  /** `str.split()` undoes `" ".join` on a list of words: the round trip. */
  lemma {:induction false} WordsOfJoin(ws: seq<string>)
    requires AllWords(ws)
    ensures Words(Join(ws)) == ws
    decreases |ws|
  {
    if ws == [] {
    } else if |ws| == 1 {
      WordOfWord(ws[0], []);
      assert ws[0] + [] == ws[0];
      WordsAtWord(ws[0]);
      assert ws[0][|ws[0]|..] == [];
    } else {
      var w := ws[0];
      var tail := Join(ws[1..]);
      var s := w + " " + tail;
      assert [w] + ws[1..] == ws;
      JoinCons(w, ws[1..]);
      WordOfWord(w, " " + tail);
      assert s == w + (" " + tail);
      WordsAtWord(s);
      assert s[|w|..] == " " + tail;
      WordsAfterSpace(" " + tail);
      assert (" " + tail)[1..] == tail;
      WordsOfJoin(ws[1..]);
    }
  }

  /** Joining words gives a collapsed spelling that starts with the first
      word's first character and ends with the last word's last one. */
  lemma {:induction false} JoinIsCollapsed(ws: seq<string>)
    requires AllWords(ws)
    ensures Collapsed(Join(ws))
    ensures ws != [] ==> Join(ws) != [] && Join(ws)[0] == ws[0][0]
    ensures ws != [] ==> Join(ws)[|Join(ws)| - 1] == ws[|ws| - 1][|ws[|ws| - 1]| - 1]
    decreases |ws|
  {
    if |ws| >= 2 {
      JoinIsCollapsed(ws[1..]);
      var w := ws[0];
      var tail := Join(ws[1..]);
      var s := w + " " + tail;
      assert Join(ws) == s;
      forall k | 0 <= k < |s| && IsSpace(s[k]) ensures s[k] == ' ' {
        if k > |w| {
          assert s[k] == tail[k - |w| - 1];
        }
      }
      forall k | 0 <= k < |s| - 1 ensures !(IsSpace(s[k]) && IsSpace(s[k + 1])) {
        if k > |w| {
          assert s[k] == tail[k - |w| - 1] && s[k + 1] == tail[k - |w|];
        } else if k == |w| {
          assert s[k + 1] == tail[0];
        } else if k == |w| - 1 {
          assert s[k] == w[k];
        } else {
          assert s[k] == w[k] && s[k + 1] == w[k + 1];
        }
      }
    }
  }

  /** A string holding a non-space character has at least one word. */
  lemma {:induction false} WordsNonEmpty(s: string)
    requires s != [] && !IsSpace(s[0])
    ensures Words(s) != [] && Words(s)[0] == Word(s)
  {
  }

  // ---------------------------------------------------------------------
  // Collapse
  // ---------------------------------------------------------------------

  /** The fallback spelling has no leading or trailing whitespace and no
      two consecutive spaces. */
  lemma CollapseIsCollapsed(s: string)
    ensures Collapsed(Collapse(s))
  {
    JoinIsCollapsed(Words(s));
  }

  /** Collapsing keeps the words: `split` sees the same list before and after. */
  lemma CollapseKeepsWords(s: string)
    ensures Words(Collapse(s)) == Words(s)
  {
    WordsOfJoin(Words(s));
  }

  /** Collapsing twice is collapsing once. */
  lemma CollapseIdempotent(s: string)
    ensures Collapse(Collapse(s)) == Collapse(s)
  {
    CollapseKeepsWords(s);
  }

  /** Collapsing changes a spelling exactly when it is not collapsed. */
  lemma CollapseFixesIff(s: string)
    ensures Collapse(s) == s <==> Collapsed(s)
  {
    CollapseIsCollapsed(s);
    if Collapsed(s) {
      CollapseFixesCollapsed(s);
    }
  }

  /** Joining a word in front of a non-empty list puts one space after it. */
  lemma JoinCons(w: string, ws: seq<string>)
    requires ws != []
    ensures Join([w] + ws) == w + " " + Join(ws)
  {
    assert ([w] + ws)[1..] == ws;
  }

  /** In a collapsed spelling, what follows a space is again collapsed and
      starts with a non-space character. */
  lemma CollapsedAfterSpace(s: string, i: nat)
    requires Collapsed(s) && i < |s| && IsSpace(s[i])
    ensures i + 1 < |s| && Collapsed(s[i + 1..]) && !IsSpace(s[i + 1])
  {
    var tail := s[i + 1..];
    forall k | 0 <= k < |tail| && IsSpace(tail[k]) ensures tail[k] == ' ' {
      assert tail[k] == s[i + 1 + k];
    }
    forall k | 0 <= k < |tail| - 1 ensures !(IsSpace(tail[k]) && IsSpace(tail[k + 1])) {
      assert tail[k] == s[i + 1 + k] && tail[k + 1] == s[i + 2 + k];
    }
  }

  /** `split` skips a leading whitespace character. */
  lemma WordsAfterSpace(s: string)
    requires s != [] && IsSpace(s[0])
    ensures Words(s) == Words(s[1..])
  {
  }

  /** `split` of a string starting with a word yields that word first. */
  lemma WordsAtWord(s: string)
    requires s != [] && !IsSpace(s[0])
    ensures Words(s) == [Word(s)] + Words(s[|Word(s)|..])
  {
  }

  /** A string is its first `i` characters, its `i`-th, and the rest. */
  lemma SplitAt(s: string, i: nat)
    requires i < |s|
    ensures s == s[..i] + [s[i]] + s[i + 1..]
  {
  }

  lemma {:induction false} CollapseFixesCollapsed(s: string)
    requires Collapsed(s)
    ensures Collapse(s) == s
    decreases |s|
  {
    if s != [] {
      var w := Word(s);
      WordsAtWord(s);
      if |w| == |s| {
        assert s[|w|..] == [];
        assert s == w;
      } else {
        CollapsedAfterSpace(s, |w|);
        var tail := s[|w| + 1..];
        WordsAfterSpace(s[|w|..]);
        assert s[|w|..][1..] == tail;
        CollapseFixesCollapsed(tail);
        WordsNonEmpty(tail);
        JoinCons(w, Words(tail));
        SplitAt(s, |w|);
      }
    }
  }

  /** Words of a brace-free string are brace-free. */
  lemma {:induction false} WordsNoBraces(s: string)
    requires NoBraces(s)
    ensures forall k :: 0 <= k < |Words(s)| ==> NoBraces(Words(s)[k])
    decreases |s|
  {
    if s != [] {
      if IsSpace(s[0]) {
        WordsNoBraces(s[1..]);
      } else {
        var w := Word(s);
        WordsNoBraces(s[|w|..]);
      }
    }
  }

  lemma {:induction false} JoinNoBraces(ws: seq<string>)
    requires forall k :: 0 <= k < |ws| ==> NoBraces(ws[k])
    ensures NoBraces(Join(ws))
    decreases |ws|
  {
    if |ws| >= 2 {
      JoinNoBraces(ws[1..]);
    }
  }

  /** Collapsing whitespace brings back no brace the cleanup removed. */
  lemma CollapseNoBraces(s: string)
    requires NoBraces(s)
    ensures NoBraces(Collapse(s))
  {
    WordsNoBraces(s);
    JoinNoBraces(Words(s));
  }

  // ---------------------------------------------------------------------
  // Words keep the text
  // ---------------------------------------------------------------------

  /** The non-whitespace characters of `s`, in order. */
  function NonSpace(s: string): string {
    if s == [] then [] else (if IsSpace(s[0]) then [] else [s[0]]) + NonSpace(s[1..])
  }

  /** The words of a list written one after the other. */
  function Concat(ws: seq<string>): string {
    if ws == [] then [] else ws[0] + Concat(ws[1..])
  }

  lemma {:induction false} NonSpaceAppend(a: string, b: string)
    ensures NonSpace(a + b) == NonSpace(a) + NonSpace(b)
    decreases |a|
  {
    if a == [] {
      assert a + b == b;
    } else {
      assert (a + b)[0] == a[0];
      assert (a + b)[1..] == a[1..] + b;
      NonSpaceAppend(a[1..], b);
    }
  }

  lemma {:induction false} NonSpaceOfWord(w: string)
    requires forall k :: 0 <= k < |w| ==> !IsSpace(w[k])
    ensures NonSpace(w) == w
    decreases |w|
  {
    if w != [] {
      NonSpaceOfWord(w[1..]);
    }
  }

  lemma ConcatCons(w: string, ws: seq<string>)
    ensures Concat([w] + ws) == w + Concat(ws)
  {
    assert ([w] + ws)[1..] == ws;
  }

  /** `str.split()` loses nothing but whitespace: its words, written one
      after the other, are the non-whitespace characters of `s` in order. */
  lemma {:induction false} WordsContent(s: string)
    ensures Concat(Words(s)) == NonSpace(s)
    decreases |s|
  {
    if s != [] {
      if IsSpace(s[0]) {
        WordsAfterSpace(s);
        WordsContent(s[1..]);
      } else {
        var w := Word(s);
        var rest := s[|w|..];
        WordsAtWord(s);
        WordsContent(rest);
        ConcatCons(w, Words(rest));
        assert s == w + rest;
        NonSpaceAppend(w, rest);
        NonSpaceOfWord(w);
      }
    }
  }

  /** The first word of `a` is not extended past a whitespace character. */
  lemma {:induction false} WordOfPrefix(a: string, rest: string)
    requires rest != [] && IsSpace(rest[0])
    ensures Word(a + rest) == Word(a)
    decreases |a|
  {
    if a == [] {
      assert a + rest == rest;
    } else {
      assert (a + rest)[0] == a[0];
      if !IsSpace(a[0]) {
        assert (a + rest)[1..] == a[1..] + rest;
        WordOfPrefix(a[1..], rest);
      }
    }
  }

  /** A whitespace character separates words: `split` of `a`, a space and
      `b` is the words of `a` followed by the words of `b`. */
  lemma {:induction false} WordsSplitAtSpace(a: string, c: char, b: string)
    requires IsSpace(c)
    ensures Words(a + [c] + b) == Words(a) + Words(b)
    decreases |a|
  {
    if a == [] {
      WordsSplitAtEnd(c, b);
    } else if IsSpace(a[0]) {
      WordsSplitAtBlank(a, c, b);
      WordsSplitAtSpace(a[1..], c, b);
    } else {
      var w := Word(a);
      WordsSplitAtWord(a, c, b);
      WordsSplitAtSpace(a[|w|..], c, b);
      assert [w] + (Words(a[|w|..]) + Words(b)) == ([w] + Words(a[|w|..])) + Words(b);
    }
  }

  /** The base of `WordsSplitAtSpace`: nothing precedes `c`. */
  lemma WordsSplitAtEnd(c: char, b: string)
    requires IsSpace(c)
    ensures Words([] + [c] + b) == Words(b)
  {
    var s := [] + [c] + b;
    assert s[1..] == b;
    WordsAfterSpace(s);
  }

  /** The step of `WordsSplitAtSpace` when `a` starts with whitespace: both
      sides skip it. */
  lemma WordsSplitAtBlank(a: string, c: char, b: string)
    requires IsSpace(c) && a != [] && IsSpace(a[0])
    ensures Words(a + [c] + b) == Words(a[1..] + [c] + b)
    ensures Words(a) == Words(a[1..])
  {
    var s := a + [c] + b;
    assert s[0] == a[0];
    assert s[1..] == a[1..] + [c] + b;
    WordsAfterSpace(s);
    WordsAfterSpace(a);
  }

  /** The step of `WordsSplitAtSpace` when `a` starts with a word: that word
      comes first on both sides, and the rest of `a` still precedes `c`. */
  lemma WordsSplitAtWord(a: string, c: char, b: string)
    requires IsSpace(c) && a != [] && !IsSpace(a[0])
    ensures var w := Word(a);
      && Words(a + [c] + b) == [w] + Words(a[|w|..] + [c] + b)
      && Words(a) == [w] + Words(a[|w|..])
  {
    var s := a + [c] + b;
    var w := Word(a);
    assert s == a + ([c] + b);
    WordOfPrefix(a, [c] + b);
    assert s[0] == a[0];
    WordsAtWord(s);
    WordsAtWord(a);
    assert s[|w|..] == a[|w|..] + [c] + b;
  }

  /** Joining words with spaces adds only whitespace. */
  lemma {:induction false} JoinContent(ws: seq<string>)
    requires AllWords(ws)
    ensures NonSpace(Join(ws)) == Concat(ws)
    decreases |ws|
  {
    if |ws| == 1 {
      NonSpaceOfWord(ws[0]);
      assert ws[0] + [] == ws[0];
    } else if |ws| >= 2 {
      JoinContent(ws[1..]);
      NonSpaceAppend(ws[0] + " ", Join(ws[1..]));
      NonSpaceAppend(ws[0], " ");
      NonSpaceOfWord(ws[0]);
      assert NonSpace(" ") == [];
      assert NonSpace(ws[0] + " ") == ws[0];
    }
  }

  /** The whitespace fallback keeps every non-whitespace character of the
      path, in order, and adds none. */
  lemma CollapseKeepsText(s: string)
    ensures NonSpace(Collapse(s)) == NonSpace(s)
  {
    JoinContent(Words(s));
    WordsContent(s);
  }

  // ---------------------------------------------------------------------
  // The suffix test
  // ---------------------------------------------------------------------

  /** The name ends in `.xlsx` in any letter case after at least one
      other character. */
  predicate NameEndsInXlsx(n: string) {
    |n| > 5 && Lower(n[|n| - 5..]) == Xlsx
  }

  /** The file name of `p` ends in `.xlsx` in the sense above. */
  predicate EndsInXlsx(p: string) {
    NameEndsInXlsx(Name(p))
  }

  lemma LowerDot(s: string, k: nat)
    requires k < |s|
    ensures Lower(s)[k] == '.' <==> s[k] == '.'
  {
  }

  /** `Path.suffix.lower() == ".xlsx"` holds exactly when the file name ends
      in `.xlsx`, in any letter case, after a non-empty stem. */
  lemma XlsxSuffixIff(p: string)
    ensures Lower(Suffix(p)) == Xlsx <==> EndsInXlsx(p)
  {
    var n := Name(p);
    if NameEndsInXlsx(n) {
      XlsxSuffixComplete(n);
    }
    if Lower(NameSuffix(n)) == Xlsx {
      XlsxSuffixSound(n);
    }
  }

  /** An accepted suffix is the last five characters of a longer name. */
  lemma XlsxSuffixSound(n: string)
    requires Lower(NameSuffix(n)) == Xlsx
    ensures NameEndsInXlsx(n)
  {
    assert |NameSuffix(n)| == 5;
    var i := LastDot(n).value;
    assert NameSuffix(n) == n[i..];
  }

  /** A name ending in `.xlsx` after a non-empty stem has that suffix. */
  lemma XlsxSuffixComplete(n: string)
    requires NameEndsInXlsx(n)
    ensures Lower(NameSuffix(n)) == Xlsx
  {
    var i := |n| - 5;
    var e := n[i..];
    LowerDot(e, 0);
    assert n[i] == e[0] == '.';
    forall k | i < k < |n| ensures n[k] != '.' {
      LowerDot(e, k - i);
      assert e[k - i] == n[k];
    }
    assert LastDot(n) == Some(i);
  }

  // ---------------------------------------------------------------------
  // Acceptance
  // ---------------------------------------------------------------------

  /** `on_drop` goes on to parse `p` exactly when `p` exists, its name ends
      in `.xlsx`, and `p` is either the cleaned path, or the collapsed
      spelling of a cleaned path that does not exist. */
  lemma ResolveIff(raw: string, onDisk: string -> bool, p: string)
    ensures Resolve(raw, onDisk) == Some(p) <==>
      && onDisk(p)
      && EndsInXlsx(p)
      && (p == Clean(raw) || (!onDisk(Clean(raw)) && p == Collapse(Clean(raw))))
  {
    XlsxSuffixIff(Candidate(raw, onDisk));
  }

  /** An accepted path holds no brace, and when it is the fallback it is in
      collapsed form. */
  lemma ResolvedShape(raw: string, onDisk: string -> bool)
    ensures Resolve(raw, onDisk).Some? ==> NoBraces(Resolve(raw, onDisk).value)
    ensures Resolve(raw, onDisk).Some? && Resolve(raw, onDisk).value != Clean(raw) ==>
      Collapsed(Resolve(raw, onDisk).value)
  {
    var c := Clean(raw);
    assert NoBraces(c);
    CollapseNoBraces(c);
    CollapseIsCollapsed(c);
  }
}
