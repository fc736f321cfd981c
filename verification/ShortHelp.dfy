/** `make_default_short_help`: a help text cut down to its first sentence, or to a line that fits. */
module ShortHelp {
  import opened Subsequences

  const SUFFIX := "..."

  const MARKER := "\U{0008}"

  // What `str.split()` splits at.
  predicate IsSpace(c: char) {
    || '\U{0009}' <= c <= '\U{000D}' || '\U{001C}' <= c <= '\U{0020}' || c == '\U{0085}' || c == '\U{00A0}'
    || c == '\U{1680}' || '\U{2000}' <= c <= '\U{200A}' || c == '\U{2028}' || c == '\U{2029}'
    || c == '\U{202F}' || c == '\U{205F}' || c == '\U{3000}'
  }

  predicate BreakAt(s: string, i: nat) {
    i + 1 < |s| && s[i] == '\n' && s[i + 1] == '\n'
  }

  // `help[:help.find("\n\n")]`, or all of it.
  function FirstParagraph(s: string): (r: string)
    ensures r <= s
    ensures forall i :: 0 <= i < |r| ==> !BreakAt(s, i)
    ensures |r| < |s| ==> BreakAt(s, |r|)
  {
    if s == "" || BreakAt(s, 0) then ""
    else
      var rest := FirstParagraph(s[1..]);
      assert forall i :: 0 < i < |s| ==> BreakAt(s, i) == BreakAt(s[1..], i - 1);
      [s[0]] + rest
  }

  function WordEnd(s: string): (n: nat)
    ensures n <= |s|
    ensures forall i :: 0 <= i < n ==> !IsSpace(s[i])
    ensures n < |s| ==> IsSpace(s[n])
  {
    if s == "" || IsSpace(s[0]) then 0 else 1 + WordEnd(s[1..])
  }

  function Words(s: string): seq<string>
    decreases |s|
  {
    if s == "" then []
    else if IsSpace(s[0]) then Words(s[1..])
    else [s[..WordEnd(s)]] + Words(s[WordEnd(s)..])
  }

  // `" ".join(words)`
  function Join(words: seq<string>): string {
    if words == [] then "" else if |words| == 1 then words[0] else words[0] + " " + Join(words[1..])
  }

  // Words without the marker that may open the paragraph.
  function Kept(help: string): seq<string> {
    var words := Words(FirstParagraph(help));
    if words != [] && words[0] == MARKER then words[1..] else words
  }

  predicate Clean(words: seq<string>) {
    forall w :: w in words ==> w != "" && forall i :: 0 <= i < |w| ==> !IsSpace(w[i])
  }

  predicate EndsSentence(w: string) {
    w != "" && w[|w| - 1] == '.'
  }

  // How many words the first sentence has; all of them when none ends one.
  function SentenceEnd(words: seq<string>): (k: nat)
    ensures k <= |words|
    ensures forall i :: 0 <= i < k - 1 ==> !EndsSentence(words[i])
    ensures k < |words| ==> k > 0 && EndsSentence(words[k - 1])
    ensures words != [] ==> k > 0
  {
    if words == [] then 0 else if EndsSentence(words[0]) then 1 else 1 + SentenceEnd(words[1..])
  }

  // The most of the first |n| words that fit with the suffix.
  function Fit(words: seq<string>, n: nat, maxLength: int): (m: nat)
    requires n <= |words|
    ensures m <= n
    ensures m > 0 ==> |Join(words[..m])| + |SUFFIX| <= maxLength
    ensures forall j :: m < j <= n ==> |Join(words[..j])| + |SUFFIX| > maxLength
  {
    if n == 0 || |Join(words[..n])| + |SUFFIX| <= maxLength then n else Fit(words, n - 1, maxLength)
  }

  // The promise: the first sentence if it fits, or else the longest line of words that fits with the
  // suffix.
  function Short(words: seq<string>, maxLength: int): string {
    var k := SentenceEnd(words);
    if |Join(words[..k])| <= maxLength || words == [] then Join(words[..k])
    else Join(words[..Fit(words, |words|, maxLength)]) + SUFFIX
  }

  // ---------------------------------------------------------------- words

  lemma {:induction false} WordsClean(s: string)
    ensures Clean(Words(s))
    decreases |s|
  {
    if s != "" {
      if IsSpace(s[0]) {
        WordsClean(s[1..]);
      } else {
        WordsClean(s[WordEnd(s)..]);
      }
    }
  }

  function Letters(s: string): string {
    if s == "" then "" else (if IsSpace(s[0]) then "" else [s[0]]) + Letters(s[1..])
  }

  lemma {:induction false} LettersOfWord(s: string, n: nat)
    requires n <= |s| && forall i :: 0 <= i < n ==> !IsSpace(s[i])
    ensures Letters(s) == s[..n] + Letters(s[n..])
  {
    hide IsSpace;
    if n == 0 {
      assert s[..0] + Letters(s) == Letters(s) && s[0..] == s;
    } else {
      LettersOfWord(s[1..], n - 1);
      assert s[1..][n - 1..] == s[n..] && s[..n] == [s[0]] + s[1..][..n - 1];
      ConcatAssoc([s[0]], s[1..][..n - 1], Letters(s[n..]));
    }
  }

  // Main result: splitting drops the white space and nothing else.
  lemma {:induction false} WordsConserve(s: string)
    ensures Concat(Words(s)) == Letters(s)
    decreases |s|
  {
    if s != "" {
      if IsSpace(s[0]) {
        WordsConserve(s[1..]);
      } else {
        var n := WordEnd(s);
        WordsConserve(s[n..]);
        LettersOfWord(s, n);
        var words := Words(s[n..]);
        assert ([s[..n]] + words)[1..] == words;
      }
    }
  }

  lemma {:induction false} WordEndOf(w: string, rest: string)
    requires forall i :: 0 <= i < |w| ==> !IsSpace(w[i])
    requires rest == "" || IsSpace(rest[0])
    ensures WordEnd(w + rest) == |w|
  {
    if w == "" {
      assert w + rest == rest;
    } else {
      ConcatTail(w, rest);
      WordEndOf(w[1..], rest);
    }
  }

  lemma WordsCons(w: string, tail: string)
    requires w != "" && forall i :: 0 <= i < |w| ==> !IsSpace(w[i])
    requires tail == "" || IsSpace(tail[0])
    ensures Words(w + tail) == [w] + Words(tail)
  {
    hide IsSpace, WordEnd;
    WordEndOf(w, tail);
    ConcatTail(w, tail);
    assert (w + tail)[..|w|] == w && (w + tail)[|w|..] == tail;
  }

  lemma WordsSpace(s: string)
    ensures Words(" " + s) == Words(s)
  {
    assert (" " + s)[1..] == s;
  }

  // Splitting undoes joining.
  lemma {:induction false} WordsOfJoin(words: seq<string>)
    requires Clean(words)
    ensures Words(Join(words)) == words
  {
    hide IsSpace, Words;
    if words == [] {
      WordsNone();
    } else {
      var w, rest := words[0], words[1..];
      assert w in words && Clean(rest);
      WordsOfJoin(rest);
      if rest == [] {
        assert w + "" == w;
        WordsCons(w, "");
      } else {
        assert IsSpace(' ') by { SpaceIsSpace(); }
        WordsCons(w, " " + Join(rest));
        WordsSpace(Join(rest));
        ConcatAssoc(w, " ", Join(rest));
      }
    }
  }

  lemma WordsNone()
    ensures Words("") == [] && Words(Join([])) == []
  {
  }

  lemma SpaceIsSpace()
    ensures IsSpace(' ')
  {
  }

  lemma {:induction false} JoinSnoc(words: seq<string>, w: string)
    ensures Join(words + [w]) == Join(words) + (if words == [] then "" else " ") + w
  {
    if words == [] {
      assert [] + [w] == [w];
    } else {
      JoinSnoc(words[1..], w);
      ConcatTail(words, [w]);
      if |words| > 1 {
        ConcatAssoc(words[0] + " ", Join(words[1..]) + " ", w);
        ConcatAssoc(words[0] + " ", Join(words[1..]), " ");
      }
    }
  }

  lemma PrefixLength(words: seq<string>, i: nat)
    requires i < |words|
    ensures |Join(words[..i + 1])| == |Join(words[..i])| + |words[i]| + if i > 0 then 1 else 0
  {
    JoinSnoc(words[..i], words[i]);
    assert words[..i + 1] == words[..i] + [words[i]];
  }

  lemma {:induction false} PrefixGrows(words: seq<string>, i: nat, j: nat)
    requires i < j <= |words| && Clean(words)
    ensures |Join(words[..i])| < |Join(words[..j])|
  {
    PrefixLength(words, j - 1);
    assert words[j - 1] in words;
    if i < j - 1 {
      PrefixGrows(words, i, j - 1);
    }
  }

  // ---------------------------------------------------------------- the algorithm

  // Once a prefix is as long as the limit, no longer prefix fits with the suffix.
  lemma FitBelow(words: seq<string>, i: nat, maxLength: int)
    requires Clean(words) && i < |words| && |Join(words[..i + 1])| >= maxLength
    ensures Fit(words, |words|, maxLength) == Fit(words, i, maxLength)
  {
    var m := Fit(words, |words|, maxLength);
    forall j | i < j <= |words| ensures |Join(words[..j])| + |SUFFIX| > maxLength {
      if j > i + 1 { PrefixGrows(words, i + 1, j); }
    }
    assert m <= i;
  }

  lemma JoinEmpty()
    ensures Join([]) == ""
  {
  }

  // The loop gave up at word |i|: the first sentence does not fit.
  lemma CutMeans(words: seq<string>, i: nat, maxLength: int)
    requires Clean(words) && i < |words| && forall j :: 0 <= j < i ==> !EndsSentence(words[j])
    requires |Join(words[..i + 1])| > maxLength || (|Join(words[..i + 1])| == maxLength && i + 1 < |words| && !EndsSentence(words[i]))
    ensures |Join(words[..SentenceEnd(words)])| > maxLength
    ensures Fit(words, i, maxLength) == Fit(words, |words|, maxLength)
  {
    FitBelow(words, i, maxLength);
    var k := SentenceEnd(words);
    assert k > i;
    if k > i + 1 {
      PrefixGrows(words, i + 1, k);
    }
  }

  method MakeDefaultShortHelp(help: string, maxLength: int) returns (r: string)
    ensures r == Short(Kept(help), maxLength)
  {
    var words := Words(FirstParagraph(help));
    WordsClean(FirstParagraph(help));
    if words == [] {
      return "";
    }
    if words[0] == MARKER {
      words := words[1..];
    }
    r := Truncate(words, maxLength);
  }

  method Truncate(words: seq<string>, maxLength: int) returns (r: string)
    requires Clean(words)
    ensures r == Short(words, maxLength)
  {
    hide Join, SentenceEnd, Fit;
    var totalLength, i := 0, 0;
    var lastIndex := |words| - 1;
    var cut := false;
    assert words[..0] == [];
    JoinEmpty();
    while i < |words|
      invariant 0 <= i <= |words|
      invariant totalLength == |Join(words[..i])|
      invariant i > 0 ==> totalLength <= maxLength
      invariant i > 0 && totalLength == maxLength ==> i == |words|
      invariant forall j :: 0 <= j < i ==> !EndsSentence(words[j])
    {
      var word := words[i];
      assert word in words;
      PrefixLength(words, i);
      totalLength := totalLength + |word| + if i > 0 then 1 else 0;
      if totalLength > maxLength {
        cut := true;
        break;
      }
      if word[|word| - 1] == '.' {
        return Join(words[..i + 1]);
      }
      if totalLength == maxLength && i != lastIndex {
        cut := true;
        break;
      }
      i := i + 1;
    }
    if !cut {
      assert words[..|words|] == words;
      return Join(words);
    }
    CutMeans(words, i, maxLength);
    totalLength := totalLength + |SUFFIX|;
    while i > 0
      invariant 0 <= i < |words|
      invariant totalLength == |Join(words[..i + 1])| + |SUFFIX|
      invariant Fit(words, i, maxLength) == Fit(words, |words|, maxLength)
    {
      PrefixLength(words, i);
      totalLength := totalLength - |words[i]| - 1;
      if totalLength <= maxLength {
        break;
      }
      i := i - 1;
    }
    r := Join(words[..i]) + SUFFIX;
  }

  // ---------------------------------------------------------------- what it promises

  // Main result: the text is never longer than the limit, or than the suffix alone.
  lemma ShortLength(words: seq<string>, maxLength: int)
    ensures |Short(words, maxLength)| <= if maxLength > 3 then maxLength else 3
  {
    var m := Fit(words, |words|, maxLength);
    assert words[..0] == [];
  }

  // Main result: the first sentence, up to the first word that ends with a dot, is the answer wherever
  // it fits; so is the whole text where no word does.
  lemma FirstSentenceShown(words: seq<string>, k: nat, maxLength: int)
    requires Clean(words) && k <= |words| && (words != [] ==> k > 0)
    requires forall j :: 0 <= j < k - 1 ==> words[j] != "" && words[j][|words[j]| - 1] != '.'
    requires k < |words| ==> words[k - 1] != "" && words[k - 1][|words[k - 1]| - 1] == '.'
    requires |Join(words[..k])| <= maxLength || words == []
    ensures Short(words, maxLength) == Join(words[..k])
  {
    hide Join, Fit;
    assert forall j :: 0 <= j < k - 1 ==> !EndsSentence(words[j]);
    assert k < |words| ==> EndsSentence(words[k - 1]);
    assert SentenceEnd(words) == k;
  }

  // Main result: with the suffix, the line holds the longest proper prefix of the words that fits
  // with it, and that is less than the first sentence.
  lemma ShortKeepsMost(words: seq<string>, maxLength: int)
    requires Clean(words) && words != [] && |Join(words[..SentenceEnd(words)])| > maxLength
    ensures var m := Fit(words, |words|, maxLength);
            && Short(words, maxLength) == Join(words[..m]) + "..."
            && m < SentenceEnd(words)
            && (m > 0 ==> |Join(words[..m])| + 3 <= maxLength)
            && forall j :: m < j <= |words| ==> |Join(words[..j])| + 3 > maxLength
  {
    hide Join;
    var k, m := SentenceEnd(words), Fit(words, |words|, maxLength);
    if m > k {
      PrefixGrows(words, k, m);
    }
  }

  // ---------------------------------------------------------------- the first paragraph

  // No blank line.
  ghost predicate OneParagraph(s: string) {
    forall i: nat :: !BreakAt(s, i)
  }

  lemma {:induction false} SpaceBehind(s: string, c: char)
    requires IsSpace(c)
    ensures Words(s + [c]) == Words(s)
    decreases |s|
  {
    hide IsSpace;
    if s == "" {
      assert "" + [c] == [c] && [c][1..] == "";
    } else if IsSpace(s[0]) {
      SpaceBehind(s[1..], c);
      ConcatTail(s, [c]);
    } else {
      var n := WordEnd(s);
      WordsCons(s[..n], s[n..]);
      assert s[..n] + s[n..] == s;
      SpaceBehind(s[n..], c);
      WordsCons(s[..n], s[n..] + [c]);
      ConcatAssoc(s[..n], s[n..], [c]);
    }
  }

  lemma ParagraphEnds(p: string, q: string)
    requires OneParagraph(p)
    ensures var r := FirstParagraph(p + "\n\n" + q); r == p || (p != "" && p[|p| - 1] == '\n' && r == p[..|p| - 1])
    ensures FirstParagraph(p) == p
  {
    var s, r := p + "\n\n" + q, FirstParagraph(p + "\n\n" + q);
    assert BreakAt(s, |p|);
    assert r == s[..|r|];
    assert forall i: nat :: i + 1 < |p| ==> BreakAt(s, i) == BreakAt(p, i);
  }

  // Main result: what stands behind the first blank line never matters, whatever the limit.
  lemma FirstParagraphOnly(p: string, q: string, maxLength: int)
    requires OneParagraph(p)
    ensures Kept(p + "\n\n" + q) == Kept(p)
    ensures Short(Kept(p + "\n\n" + q), maxLength) == Short(Kept(p), maxLength)
  {
    hide Words, Short, OneParagraph;
    ParagraphEnds(p, q);
    var r := FirstParagraph(p + "\n\n" + q);
    if r != p {
      assert p == r + ['\n'];
      NewlineIsSpace();
      SpaceBehind(r, '\n');
    }
  }

  lemma NewlineIsSpace()
    ensures IsSpace('\n')
  {
  }

  // The first word is the marker alone.
  ghost predicate Marked(s: string) {
    exists i: nat :: i < |s| && s[i] == MARKER[0] && (forall j :: 0 <= j < i ==> IsSpace(s[j])) && (i + 1 == |s| || IsSpace(s[i + 1]))
  }

  lemma {:induction false} MarkedFirst(s: string)
    ensures Marked(s) <==> Words(s) != [] && Words(s)[0] == MARKER
    decreases |s|
  {
    assert !IsSpace(MARKER[0]);
    hide IsSpace;
    if s != "" {
      if IsSpace(s[0]) {
        MarkedFirst(s[1..]);
        MarkedTail(s);
      } else {
        var n := WordEnd(s);
        if s[..n] == MARKER {
          assert s[0] == MARKER[0];
        }
        if Marked(s) {
          assert s[..1] == MARKER;
        }
      }
    }
  }

  lemma MarkedTail(s: string)
    requires s != "" && IsSpace(s[0])
    ensures Marked(s) <==> Marked(s[1..])
  {
    assert !IsSpace(MARKER[0]);
    hide IsSpace;
    if Marked(s) {
      var i: nat :| i < |s| && s[i] == MARKER[0] && (forall j :: 0 <= j < i ==> IsSpace(s[j])) && (i + 1 == |s| || IsSpace(s[i + 1]));
      assert s[1..][i - 1] == s[i];
    }
    if Marked(s[1..]) {
      var i: nat :| i < |s[1..]| && s[1..][i] == MARKER[0] && (forall j :: 0 <= j < i ==> IsSpace(s[1..][j]))
                    && (i + 1 == |s[1..]| || IsSpace(s[1..][i + 1]));
      assert s[i + 1] == s[1..][i];
      forall j | 0 <= j < i + 1 ensures IsSpace(s[j]) {
        assert j > 0 ==> s[j] == s[1..][j - 1];
      }
    }
  }

  // Main result: the words kept of a paragraph are all its letters, in order, but for one opening marker.
  lemma KeptConserves(p: string)
    requires OneParagraph(p)
    ensures Letters(p) == (if Marked(p) then "\U{0008}" else "") + Concat(Kept(p))
  {
    hide IsSpace, Words, Marked, OneParagraph;
    ParagraphEnds(p, "");
    MarkedFirst(p);
    WordsConserve(p);
  }

  // ---------------------------------------------------------------- shortening twice

  lemma NoBreak(s: string)
    requires forall i :: 0 <= i < |s| ==> s[i] != '\n'
    ensures FirstParagraph(s) == s
  {
    assert forall i: nat :: !BreakAt(s, i);
  }

  lemma {:induction false} JoinHasNoNewline(words: seq<string>)
    requires Clean(words)
    ensures forall i :: 0 <= i < |Join(words)| ==> Join(words)[i] != '\n'
  {
    if words != [] {
      assert words[0] in words;
      JoinHasNoNewline(words[1..]);
    }
  }

  lemma KeptOfJoin(words: seq<string>)
    requires Clean(words)
    ensures Kept(Join(words)) == if words != [] && words[0] == MARKER then words[1..] else words
  {
    JoinHasNoNewline(words);
    NoBreak(Join(words));
    WordsOfJoin(words);
  }

  // The words of the shortened text.
  function ShortWords(words: seq<string>, maxLength: int): seq<string> {
    var k := SentenceEnd(words);
    if |Join(words[..k])| <= maxLength || words == [] then words[..k]
    else Suffixed(words, Fit(words, |words|, maxLength))
  }

  function Suffixed(words: seq<string>, m: nat): seq<string>
    requires m <= |words|
  {
    if m == 0 then [SUFFIX] else words[..m - 1] + [words[m - 1] + SUFFIX]
  }

  lemma CleanPrefix(words: seq<string>, n: nat)
    requires Clean(words) && n <= |words|
    ensures Clean(words[..n])
  {
    assert forall w :: w in words[..n] ==> w in words;
  }

  lemma SuffixedJoin(front: seq<string>, last: string)
    ensures Join(front + [last + SUFFIX]) == Join(front + [last]) + SUFFIX
  {
    hide Join;
    JoinSnoc(front, last);
    JoinSnoc(front, last + SUFFIX);
    ConcatAssoc(Join(front) + (if front == [] then "" else " "), last, SUFFIX);
  }

  lemma CleanSnoc(front: seq<string>, last: string)
    requires Clean(front) && Clean([last])
    ensures Clean(front + [last + SUFFIX])
  {
    assert last in [last];
  }

  lemma SuffixedLine(words: seq<string>, m: nat)
    requires Clean(words) && m <= |words|
    ensures Clean(Suffixed(words, m)) && Join(words[..m]) + SUFFIX == Join(Suffixed(words, m))
  {
    hide Join, Clean;
    if m > 0 {
      var front, last := words[..m - 1], words[m - 1];
      CleanPrefix(words, m - 1);
      CleanPiece(words, m - 1);
      CleanSnoc(front, last);
      assert words[..m] == front + [last];
      SuffixedJoin(front, last);
    } else {
      assert words[..0] == [];
      BareJoin();
    }
  }

  lemma ShortIsJoin(words: seq<string>, maxLength: int)
    requires Clean(words)
    ensures Clean(ShortWords(words, maxLength)) && Short(words, maxLength) == Join(ShortWords(words, maxLength))
  {
    hide Join, Fit, SentenceEnd, Clean, Suffixed;
    CleanPrefix(words, SentenceEnd(words));
    SuffixedLine(words, Fit(words, |words|, maxLength));
  }

  lemma CleanPiece(words: seq<string>, i: nat)
    requires Clean(words) && i < |words|
    ensures Clean([words[i]])
  {
  }

  lemma BareJoin()
    ensures Clean([SUFFIX]) && Join([SUFFIX]) == SUFFIX == Join([]) + SUFFIX
  {
    assert "" + SUFFIX == SUFFIX;
  }

  // A list of words that is one sentence, or ends without one, and fits or is the bare suffix.
  lemma ShortFixed(words: seq<string>, maxLength: int)
    requires Clean(words)
    ensures Short(ShortWords(words, maxLength), maxLength) == Short(words, maxLength)
  {
    hide Fit;
    var k, again := SentenceEnd(words), ShortWords(words, maxLength);
    ShortIsJoin(words, maxLength);
    ShortLength(words, maxLength);
    if |Join(words[..k])| <= maxLength || words == [] {
      SentenceOf(words[..k]);
    } else {
      ShortKeepsMost(words, maxLength);
      SentenceOf(again);
    }
    assert again[..|again|] == again;
    if |Join(again)| > maxLength {
      BareSuffix(words, maxLength);
    }
  }

  lemma SentenceOf(words: seq<string>)
    requires forall i :: 0 <= i < |words| - 1 ==> !EndsSentence(words[i])
    ensures SentenceEnd(words) == |words|
  {
  }

  lemma BareSuffix(words: seq<string>, maxLength: int)
    requires Clean(words)
    ensures |Short(words, maxLength)| > maxLength && words != [] ==>
              ShortWords(words, maxLength) == [SUFFIX] && Short([SUFFIX], maxLength) == SUFFIX
  {
    ShortLength(words, maxLength);
    assert [SUFFIX][..0] == [] && [SUFFIX][..1] == [SUFFIX];
  }

  lemma {:induction false} JoinTail(words: seq<string>)
    requires words != [] && words[0] != ""
    ensures |Join(words[1..])| < |Join(words)|
  {
  }

  lemma FirstSentenceShorter(words: seq<string>)
    requires Clean(words)
    ensures |Join(words[..SentenceEnd(words)])| <= |Join(words)|
  {
    hide Join, Clean, SentenceEnd;
    assert words[..|words|] == words;
    if SentenceEnd(words) < |words| {
      PrefixGrows(words, SentenceEnd(words), |words|);
    }
  }

  lemma MarkerLost(kept: seq<string>, maxLength: int)
    requires Clean(kept)
    requires var words := ShortWords(kept, maxLength); words != [] && words[0] == MARKER
    ensures Short(ShortWords(kept, maxLength)[1..], maxLength) != Short(kept, maxLength)
  {
    hide Join, SentenceEnd, Fit;
    var words := ShortWords(kept, maxLength);
    var rest := words[1..];
    ShortIsJoin(kept, maxLength);
    BareSuffix(kept, maxLength);
    assert |SUFFIX| != |MARKER|;
    assert |Join(words)| <= maxLength;
    assert Clean(rest);
    JoinTail(words);
    FirstSentenceShorter(rest);
  }

  // Main result: shortening a shortened text changes nothing, unless the text starts with a marker
  // word of its own, which the second pass takes for the paragraph's.
  lemma TwiceExactly(help: string, maxLength: int)
    ensures var once := Short(Kept(help), maxLength);
            var words := ShortWords(Kept(help), maxLength);
            Short(Kept(once), maxLength) == once <==> !(words != [] && words[0] == MARKER)
  {
    var kept := Kept(help);
    WordsClean(FirstParagraph(help));
    var words, once := ShortWords(kept, maxLength), Short(kept, maxLength);
    ShortIsJoin(kept, maxLength);
    KeptOfJoin(words);
    if words != [] && words[0] == MARKER {
      MarkerLost(kept, maxLength);
    } else {
      ShortFixed(kept, maxLength);
    }
  }
}
