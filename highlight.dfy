/** Vocabulary highlighting (`highlightText`): the text is split on a
    case-insensitive alternation of the target words, keeping the matched
    pieces (a split with a capturing group), and every piece is then marked
    emphasised when it equals one of the words ignoring case.

    The regular-expression split is modelled as the left-to-right scan it
    performs: at each position the words are tried in list order, the
    first that matches ignoring case is cut out in its original casing, and
    scanning resumes right after it; otherwise the position joins the
    current plain piece. As with a capturing split, the result alternates
    plain piece, match, plain piece, ..., plain piece, and plain pieces may
    be empty. Case is folded over ASCII letters only. */
module Highlight {
  import opened Wrappers

  /** The word list used when a caller passes none. */
  const TargetWords: seq<string> := [
    "organisms", "insects", "dweller", "naturalist", "cycle", "break down",
    "material", "process", "nutrients", "maintain", "coral reef", "discover",
    "gem", "species", "region"
  ]

  function LowerChar(c: char): char {
    if 'A' <= c <= 'Z' then (c as int + 32) as char else c
  }

  /** `toLowerCase`, restricted to ASCII letters. */
  function Lower(s: string): (r: string)
    ensures |r| == |s|
    ensures forall i :: 0 <= i < |s| ==> r[i] == LowerChar(s[i])
  {
    if s == [] then [] else [LowerChar(s[0])] + Lower(s[1..])
  }

  /** `a.toLowerCase() === b.toLowerCase()`. */
  predicate SameIgnoringCase(a: string, b: string) {
    Lower(a) == Lower(b)
  }

  /** `w` occurs, ignoring case, at the very start of `s`. */
  predicate StartsWithWord(s: string, w: string) {
    |w| <= |s| && SameIgnoringCase(s[..|w|], w)
  }

  /** What the alternation needs to behave as a list of literal words: at
      least one word, and no empty word (an empty alternative would match
      everywhere). */
  predicate ValidWords(words: seq<string>) {
    |words| > 0 && forall i :: 0 <= i < |words| ==> |words[i]| > 0
  }

  /** The alternative the alternation picks at the start of `s`: the index
      of the first word in list order that matches there, if any. */
  function FirstMatch(s: string, words: seq<string>): (r: Option<nat>)
    ensures r.Some? ==> r.value < |words| && StartsWithWord(s, words[r.value])
    ensures r.Some? ==> forall j :: 0 <= j < r.value ==> !StartsWithWord(s, words[j])
    ensures r.None? ==> forall j :: 0 <= j < |words| ==> !StartsWithWord(s, words[j])
  {
    if words == [] then None
    else if StartsWithWord(s, words[0]) then Some(0)
    else match FirstMatch(s, words[1..])
      case Some(k) => Some(k + 1)
      case None => None
  }

  /** `text.split(/(w1|w2|...)/gi)`: plain pieces at even indices, matched
      pieces at odd indices; the first piece is a prefix of the text. */
  function Split(text: string, words: seq<string>): (pieces: seq<string>)
    requires ValidWords(words)
    ensures |pieces| % 2 == 1
    ensures pieces[0] <= text
    decreases |text|
  {
    if text == [] then [""]
    else match FirstMatch(text, words)
      case Some(k) => ["", text[..|words[k]|]] + Split(text[|words[k]|..], words)
      case None =>
        var rest := Split(text[1..], words);
        [[text[0]] + rest[0]] + rest[1..]
  }

  /** The pieces joined back together. */
  function Concat(pieces: seq<string>): string {
    if pieces == [] then [] else pieces[0] + Concat(pieces[1..])
  }

  datatype Part = Part(text: string, emphasised: bool)

  /** What `highlightText` returns: the text itself when it is empty,
      otherwise the marked pieces. */
  datatype Highlighted = Verbatim(text: string) | Parts(parts: seq<Part>)

  /** `words.some(w => w.toLowerCase() === part.toLowerCase())`. */
  predicate IsWord(part: string, words: seq<string>) {
    exists w :: w in words && SameIgnoringCase(w, part)
  }

  /** Each piece becomes a part with the same text, emphasised exactly
      when it equals a word ignoring case (the `some` test). */
  function Mark(pieces: seq<string>, words: seq<string>): (parts: seq<Part>)
    ensures |parts| == |pieces|
    ensures forall i :: 0 <= i < |pieces| ==> parts[i] == Part(pieces[i], IsWord(pieces[i], words))
  {
    if pieces == [] then [] else [Part(pieces[0], IsWord(pieces[0], words))] + Mark(pieces[1..], words)
  }

  /** `highlightText`: empty text comes back unchanged; any other text is
      cut into parts that show it exactly, in its original casing; the
      parts are the pieces of the split, in order; a part is emphasised
      exactly when its text equals a word ignoring case, and that is
      exactly when it is a match (an odd index). */
  function HighlightText(text: string, words: seq<string>): (h: Highlighted)
    requires ValidWords(words)
    ensures h.Verbatim? <==> text == []
    ensures Shown(h) == text
    ensures h.Parts? ==>
      |h.parts| == |Split(text, words)| &&
      forall i :: 0 <= i < |h.parts| ==>
        h.parts[i].text == Split(text, words)[i] &&
        (h.parts[i].emphasised <==> IsWord(h.parts[i].text, words))
    ensures h.Parts? ==>
      |h.parts| % 2 == 1 && forall i :: 0 <= i < |h.parts| ==> (h.parts[i].emphasised <==> i % 2 == 1)
  {
    if text == [] then Verbatim(text)
    else
      SplitLossless(text, words);
      SplitPieces(text, words);
      MarkFollowsMatches(Split(text, words), words);
      Parts(Mark(Split(text, words), words))
  }

  /** The text a rendering shows. */
  function Shown(h: Highlighted): string {
    match h
    case Verbatim(t) => t
    case Parts(ps) => Concat(seq(|ps|, i requires 0 <= i < |ps| => ps[i].text))
  }

  // ---------------------------------------------------------------------
  // Lemmas

  /** One scan step when a word matches at the start of the text. */
  lemma SplitOnMatch(text: string, words: seq<string>, k: nat)
    requires ValidWords(words) && text != [] && FirstMatch(text, words) == Some(k)
    ensures Split(text, words) == ["", text[..|words[k]|]] + Split(text[|words[k]|..], words)
  {
  }

  /** One scan step when no word matches at the start of the text. */
  lemma SplitOnNoMatch(text: string, words: seq<string>)
    requires ValidWords(words) && text != [] && FirstMatch(text, words) == None
    ensures Split(text, words) == [[text[0]] + Split(text[1..], words)[0]] + Split(text[1..], words)[1..]
  {
  }

  lemma ConcatCons(x: string, rest: seq<string>)
    ensures Concat([x] + rest) == x + Concat(rest)
  {
    assert ([x] + rest)[1..] == rest;
  }

  /** Splitting loses nothing: the pieces, in their original casing, join
      back into the text. */
  lemma {:induction false} SplitLossless(text: string, words: seq<string>)
    requires ValidWords(words)
    ensures Concat(Split(text, words)) == text
    decreases |text|
  {
    if text != [] {
      var m := FirstMatch(text, words);
      if m.Some? {
        var n := |words[m.value]|;
        SplitLossless(text[n..], words);
        LosslessOnMatch(text, words, m.value);
      } else {
        SplitLossless(text[1..], words);
        LosslessOnNoMatch(text, words);
      }
    }
  }

  lemma LosslessOnMatch(text: string, words: seq<string>, k: nat)
    requires ValidWords(words) && text != [] && FirstMatch(text, words) == Some(k)
    requires Concat(Split(text[|words[k]|..], words)) == text[|words[k]|..]
    ensures Concat(Split(text, words)) == text
  {
    SplitOnMatch(text, words, k);
    ConcatAfterMatch(text, |words[k]|, Split(text[|words[k]|..], words));
  }

  lemma ConcatAfterMatch(text: string, n: nat, rest: seq<string>)
    requires n <= |text| && Concat(rest) == text[n..]
    ensures Concat(["", text[..n]] + rest) == text
  {
    ConcatMatch(text[..n], rest);
    assert text[..n] + text[n..] == text;
  }

  lemma LosslessOnNoMatch(text: string, words: seq<string>)
    requires ValidWords(words) && text != [] && FirstMatch(text, words) == None
    requires Concat(Split(text[1..], words)) == text[1..]
    ensures Concat(Split(text, words)) == text
  {
    SplitOnNoMatch(text, words);
    ConcatAfterHead(text, Split(text[1..], words));
  }

  lemma ConcatAfterHead(text: string, rest: seq<string>)
    requires text != [] && |rest| > 0 && Concat(rest) == text[1..]
    ensures Concat([[text[0]] + rest[0]] + rest[1..]) == text
  {
    ConcatExtendHead(text[0], rest[0], rest[1..]);
    assert [rest[0]] + rest[1..] == rest;
    assert [text[0]] + text[1..] == text;
  }

  lemma ConcatMatch(m: string, rest: seq<string>)
    ensures Concat(["", m] + rest) == m + Concat(rest)
  {
    assert ["", m] + rest == [""] + ([m] + rest);
    ConcatCons("", [m] + rest);
    ConcatCons(m, rest);
  }

  lemma ConcatExtendHead(c: char, head: string, tail: seq<string>)
    ensures Concat([[c] + head] + tail) == [c] + Concat([head] + tail)
  {
    ConcatCons([c] + head, tail);
    ConcatCons(head, tail);
    assert ([c] + head) + Concat(tail) == [c] + (head + Concat(tail));
  }

  /** No word occurs, ignoring case, anywhere inside `s`. */
  predicate WordFree(s: string, words: seq<string>) {
    forall j, k :: 0 <= j <= |s| && 0 <= k < |words| ==> !StartsWithWord(s[j..], words[k])
  }

  /** A word that starts a prefix of `s` starts `s`. */
  lemma StartsWithPrefix(pre: string, s: string, w: string)
    requires pre <= s && StartsWithWord(pre, w)
    ensures StartsWithWord(s, w)
  {
    assert s[..|w|] == pre[..|w|];
  }

  /** Pieces at odd indices are matches of a word; pieces at even indices
      contain no word at all. */
  predicate Alternates(pieces: seq<string>, words: seq<string>) {
    forall i :: 0 <= i < |pieces| ==>
      if i % 2 == 1 then IsWord(pieces[i], words) else WordFree(pieces[i], words)
  }

  /** Each matched piece (odd index) equals, ignoring case, a word of the
      list; each plain piece (even index) contains no word at all, because
      the scan would have cut it out there. */
  lemma {:induction false} SplitPieces(text: string, words: seq<string>)
    requires ValidWords(words)
    ensures Alternates(Split(text, words), words)
    decreases |text|
  {
    if text == [] {
      assert Split(text, words) == [""];
      assert WordFree("", words);
    } else {
      var m := FirstMatch(text, words);
      if m.Some? {
        SplitPieces(text[|words[m.value]|..], words);
        PiecesOnMatch(text, words, m.value);
      } else {
        SplitPieces(text[1..], words);
        PiecesOnNoMatch(text, words);
      }
    }
  }

  lemma PiecesOnMatch(text: string, words: seq<string>, k: nat)
    requires ValidWords(words) && text != [] && FirstMatch(text, words) == Some(k)
    requires Alternates(Split(text[|words[k]|..], words), words)
    ensures Alternates(Split(text, words), words)
  {
    var n := |words[k]|;
    SplitOnMatch(text, words, k);
    assert words[k] in words && SameIgnoringCase(words[k], text[..n]);
    AlternatesMatch(text[..n], Split(text[n..], words), words);
  }

  lemma AlternatesMatch(m: string, rest: seq<string>, words: seq<string>)
    requires IsWord(m, words) && Alternates(rest, words) && ValidWords(words)
    ensures Alternates(["", m] + rest, words)
  {
    var pieces := ["", m] + rest;
    assert WordFree("", words);
    forall i | 2 <= i < |pieces| ensures pieces[i] == rest[i - 2] {
    }
  }

  lemma PiecesOnNoMatch(text: string, words: seq<string>)
    requires ValidWords(words) && text != [] && FirstMatch(text, words) == None
    requires Alternates(Split(text[1..], words), words)
    ensures Alternates(Split(text, words), words)
  {
    var rest := Split(text[1..], words);
    SplitOnNoMatch(text, words);
    var head := [text[0]] + rest[0];
    assert WordFree(rest[0], words);
    assert head <= text;
    forall j, k | 0 <= j <= |head| && 0 <= k < |words| ensures !StartsWithWord(head[j..], words[k]) {
      if j == 0 {
        if StartsWithWord(head, words[k]) {
          StartsWithPrefix(head, text, words[k]);
          assert false;
        }
      } else {
        assert head[j..] == rest[0][j - 1..];
      }
    }
    AlternatesExtendHead(head, rest, words);
  }

  lemma AlternatesExtendHead(head: string, rest: seq<string>, words: seq<string>)
    requires |rest| > 0 && Alternates(rest, words) && WordFree(head, words)
    ensures Alternates([head] + rest[1..], words)
  {
    var pieces := [head] + rest[1..];
    forall i | 1 <= i < |pieces| ensures pieces[i] == rest[i] {
    }
  }

  /** A piece with no word inside it cannot equal a word. */
  lemma WordFreeIsNoWord(s: string, words: seq<string>)
    requires WordFree(s, words)
    ensures !IsWord(s, words)
  {
    forall k | 0 <= k < |words| ensures !SameIgnoringCase(words[k], s) {
      assert !StartsWithWord(s[0..], words[k]);
      assert s[0..] == s;
      if |words[k]| == |s| {
        assert s[..|words[k]|] == s;
      }
    }
  }

  /** Marking pieces that alternate plain and match shows their text and
      emphasises exactly the matches. */
  lemma MarkFollowsMatches(pieces: seq<string>, words: seq<string>)
    requires Alternates(pieces, words)
    ensures Shown(Parts(Mark(pieces, words))) == Concat(pieces)
    ensures forall i :: 0 <= i < |pieces| ==> (Mark(pieces, words)[i].emphasised <==> i % 2 == 1)
  {
    var ps := Mark(pieces, words);
    assert seq(|ps|, i requires 0 <= i < |ps| => ps[i].text) == pieces;
    forall i | 0 <= i < |pieces| ensures ps[i].emphasised <==> i % 2 == 1 {
      if i % 2 == 0 {
        WordFreeIsNoWord(pieces[i], words);
      }
    }
  }

  // ---------------------------------------------------------------------
  // The scan, position by position

  /** Where piece `i` starts in the text: the total length of the pieces
      before it. */
  function Offset(pieces: seq<string>, i: nat): nat
    requires i <= |pieces|
  {
    if i == 0 then 0 else |pieces[0]| + Offset(pieces[1..], i - 1)
  }

  /** `piece` is what the scan cuts at offset `o` of the text: it is the
      text found there; a plain piece covers only positions where no word
      matches; a match is exactly as long as the word the alternation picks
      at `o`. */
  predicate CutAt(text: string, o: nat, piece: string, isMatch: bool, words: seq<string>) {
    o + |piece| <= |text| && text[o..o + |piece|] == piece &&
    if isMatch then
      var m := FirstMatch(text[o..], words);
      m.Some? && |piece| == |words[m.value]|
    else
      forall p :: o <= p < o + |piece| ==> FirstMatch(text[p..], words) == None
  }

  /** Piece `i` sits at its offset and is a match exactly when `i` is odd. */
  predicate ScannedAt(text: string, pieces: seq<string>, words: seq<string>, i: nat)
    requires i < |pieces|
  {
    CutAt(text, Offset(pieces, i), pieces[i], i % 2 == 1, words)
  }

  /** Every piece is cut as the scan cuts it. */
  predicate Scanned(text: string, pieces: seq<string>, words: seq<string>) {
    forall i :: 0 <= i < |pieces| ==> ScannedAt(text, pieces, words, i)
  }

  lemma OffsetCons(x: string, tail: seq<string>, i: nat)
    requires 1 <= i <= |tail| + 1
    ensures Offset([x] + tail, i) == |x| + Offset(tail, i - 1)
  {
    assert ([x] + tail)[1..] == tail;
  }

  /** A cut keeps its standing when the text loses its first `n`
      characters and the offset moves back by `n`. */
  lemma CutShift(text: string, n: nat, o: nat, piece: string, isMatch: bool, words: seq<string>)
    requires n <= |text|
    ensures CutAt(text[n..], o, piece, isMatch, words) <==> CutAt(text, n + o, piece, isMatch, words)
  {
    if n + o + |piece| <= |text| {
      assert text[n..][o..o + |piece|] == text[n + o..n + o + |piece|];
      if isMatch {
        assert text[n..][o..] == text[n + o..];
      } else {
        CutShiftPlain(text, n, o, |piece|, words);
      }
    }
  }

  lemma CutShiftPlain(text: string, n: nat, o: nat, len: nat, words: seq<string>)
    requires n + o + len <= |text|
    ensures (forall p :: o <= p < o + len ==> FirstMatch(text[n..][p..], words) == None) <==>
            (forall p :: n + o <= p < n + o + len ==> FirstMatch(text[p..], words) == None)
  {
    forall p | o <= p <= o + len ensures text[n..][p..] == text[n + p..] {
    }
    if forall p :: n + o <= p < n + o + len ==> FirstMatch(text[p..], words) == None {
      forall p | o <= p < o + len ensures FirstMatch(text[n..][p..], words) == None {
        assert FirstMatch(text[n + p..], words) == None;
      }
    }
    if forall p :: o <= p < o + len ==> FirstMatch(text[n..][p..], words) == None {
      forall p | n + o <= p < n + o + len ensures FirstMatch(text[p..], words) == None {
        assert FirstMatch(text[n..][p - n..], words) == None;
      }
    }
  }

  /** A piece keeps its standing when the text and the pieces before it are
      shortened alike: piece `i` of `pieces` is piece `i2` of `rest`, which
      describes the text from offset `n` on. */
  lemma ScannedShift(text: string, n: nat, pieces: seq<string>, i: nat, rest: seq<string>, i2: nat, words: seq<string>)
    requires n <= |text| && i < |pieces| && i2 < |rest|
    requires pieces[i] == rest[i2] && i % 2 == i2 % 2
    requires Offset(pieces, i) == n + Offset(rest, i2)
    ensures ScannedAt(text[n..], rest, words, i2) <==> ScannedAt(text, pieces, words, i)
  {
    CutShift(text, n, Offset(rest, i2), rest[i2], i2 % 2 == 1, words);
  }

  /** The first piece, when not empty, is cut as the scan cuts it exactly
      when its first character is the text's, no word matches at the start
      and the rest of it is cut as the scan cuts the rest of the text. */
  lemma ScannedHead(text: string, h: string, tail: seq<string>, words: seq<string>)
    requires text != [] && h != []
    ensures ScannedAt(text, [h] + tail, words, 0) <==>
      h[0] == text[0] && FirstMatch(text, words) == None && ScannedAt(text[1..], [h[1..]] + tail, words, 0)
  {
    assert text[0..] == text;
    forall p | 1 <= p <= |text| ensures text[1..][p - 1..] == text[p..] {
    }
    if |h| <= |text| {
      assert text[1..][0..|h| - 1] == text[1..|h|];
      assert text[0..|h|] == [text[0]] + text[1..|h|];
      assert h == [h[0]] + h[1..];
    }
  }

  lemma ScannedMatch(text: string, words: seq<string>, k: nat, rest: seq<string>)
    requires ValidWords(words) && FirstMatch(text, words) == Some(k)
    requires Scanned(text[|words[k]|..], rest, words)
    ensures Scanned(text, ["", text[..|words[k]|]] + rest, words)
  {
    var n := |words[k]|;
    var pieces := ["", text[..n]] + rest;
    forall i | 0 <= i < |pieces| ensures ScannedAt(text, pieces, words, i) {
      if i < 2 {
        ScannedLeadingMatch(text, words, k, rest);
      } else {
        ScannedAfterMatch(text, n, rest, words, i - 2);
      }
    }
  }

  /** A match at the start of the text is cut as the scan cuts it, after
      an empty plain piece. */
  lemma ScannedLeadingMatch(text: string, words: seq<string>, k: nat, rest: seq<string>)
    requires FirstMatch(text, words) == Some(k)
    ensures ScannedAt(text, ["", text[..|words[k]|]] + rest, words, 0)
    ensures ScannedAt(text, ["", text[..|words[k]|]] + rest, words, 1)
  {
    var n := |words[k]|;
    var pieces := ["", text[..n]] + rest;
    assert pieces == [""] + ([text[..n]] + rest);
    OffsetCons("", [text[..n]] + rest, 1);
    assert text[0..] == text;
    assert text[0..n] == text[..n];
  }

  lemma ScannedExtendHead(text: string, words: seq<string>, rest: seq<string>)
    requires text != [] && FirstMatch(text, words) == None && |rest| > 0
    requires Scanned(text[1..], rest, words)
    ensures Scanned(text, [[text[0]] + rest[0]] + rest[1..], words)
  {
    var head := [text[0]] + rest[0];
    var pieces := [head] + rest[1..];
    assert [head[1..]] + rest[1..] == rest;
    forall i | 0 <= i < |pieces| ensures ScannedAt(text, pieces, words, i) {
      if i == 0 {
        ScannedHead(text, head, rest[1..], words);
      } else {
        OffsetCons(head, rest[1..], i);
        OffsetCons(rest[0], rest[1..], i);
        ScannedShift(text, 1, pieces, i, rest, i, words);
      }
    }
  }

  lemma ScansOnMatch(text: string, words: seq<string>, k: nat)
    requires ValidWords(words) && text != [] && FirstMatch(text, words) == Some(k)
    requires Scanned(text[|words[k]|..], Split(text[|words[k]|..], words), words)
    ensures Scanned(text, Split(text, words), words)
  {
    SplitOnMatch(text, words, k);
    ScannedMatch(text, words, k, Split(text[|words[k]|..], words));
  }

  lemma ScansOnNoMatch(text: string, words: seq<string>)
    requires ValidWords(words) && text != [] && FirstMatch(text, words) == None
    requires Scanned(text[1..], Split(text[1..], words), words)
    ensures Scanned(text, Split(text, words), words)
  {
    SplitOnNoMatch(text, words);
    ScannedExtendHead(text, words, Split(text[1..], words));
  }

  /** The split follows the scan at every position: a plain piece covers
      only positions where no word matches, and each match is the text at
      its offset, as long as the first word in list order that matches
      there. So matches are found leftmost first, and ties go to the
      earlier word. */
  lemma {:induction false} SplitScans(text: string, words: seq<string>)
    requires ValidWords(words)
    ensures Scanned(text, Split(text, words), words)
    decreases |text|
  {
    if text == [] {
      assert Split(text, words) == [""];
    } else {
      var m := FirstMatch(text, words);
      if m.Some? {
        SplitScans(text[|words[m.value]|..], words);
        ScansOnMatch(text, words, m.value);
      } else {
        SplitScans(text[1..], words);
        ScansOnNoMatch(text, words);
      }
    }
  }

  /** Conversely, the scan leaves no choice: an odd number of pieces that
      join back into the text and are cut as the scan cuts are the split. */
  lemma {:induction false} ScannedIsSplit(text: string, words: seq<string>, pieces: seq<string>)
    requires ValidWords(words) && |pieces| % 2 == 1
    requires Concat(pieces) == text && Scanned(text, pieces, words)
    ensures pieces == Split(text, words)
    decreases |text|
  {
    assert ScannedAt(text, pieces, words, 0);
    if pieces[0] != "" {
      ScannedIsSplitOnNoMatch(text, words, pieces);
    } else if |pieces| == 1 {
      assert Concat(pieces) == "" + Concat(pieces[1..]);
    } else {
      ScannedIsSplitOnMatch(text, words, pieces);
    }
  }

  lemma {:induction false} ScannedIsSplitOnNoMatch(text: string, words: seq<string>, pieces: seq<string>)
    requires ValidWords(words) && |pieces| % 2 == 1 && pieces[0] != ""
    requires Concat(pieces) == text && Scanned(text, pieces, words)
    ensures pieces == Split(text, words)
    decreases |text|, 0
  {
    assert ScannedAt(text, pieces, words, 0);
    var h := pieces[0];
    var shorter := [h[1..]] + pieces[1..];
    assert pieces == [h] + pieces[1..];
    ScannedHead(text, h, pieces[1..], words);
    ConcatCons(h, pieces[1..]);
    ConcatCons(h[1..], pieces[1..]);
    assert h == [text[0]] + h[1..];
    assert text == [text[0]] + text[1..];
    forall i | 0 <= i < |shorter| ensures ScannedAt(text[1..], shorter, words, i) {
      if i >= 1 {
        OffsetCons(h, pieces[1..], i);
        OffsetCons(h[1..], pieces[1..], i);
        ScannedShift(text, 1, pieces, i, shorter, i, words);
      }
    }
    ScannedIsSplit(text[1..], words, shorter);
    SplitOnNoMatch(text, words);
  }

  lemma {:induction false} ScannedIsSplitOnMatch(text: string, words: seq<string>, pieces: seq<string>)
    requires ValidWords(words) && |pieces| % 2 == 1 && |pieces| > 1 && pieces[0] == ""
    requires Concat(pieces) == text && Scanned(text, pieces, words)
    ensures pieces == Split(text, words)
    decreases |text|, 0
  {
    assert ScannedAt(text, pieces, words, 1);
    OffsetCons("", pieces[1..], 1);
    assert text[0..] == text;
    var k := FirstMatch(text, words).value;
    var n := |words[k]|;
    var tail := pieces[2..];
    assert pieces == ["", text[..n]] + tail;
    ConcatMatch(text[..n], tail);
    assert text == text[..n] + text[n..];
    ScannedDropMatch(text, n, tail, words);
    ScannedIsSplit(text[n..], words, tail);
    SplitOnMatch(text, words, k);
  }

  /** The pieces after a match at the start are cut as the scan cuts the
      text after that match. */
  lemma ScannedDropMatch(text: string, n: nat, tail: seq<string>, words: seq<string>)
    requires n <= |text| && Scanned(text, ["", text[..n]] + tail, words)
    ensures Scanned(text[n..], tail, words)
  {
    forall i | 0 <= i < |tail| ensures ScannedAt(text[n..], tail, words, i) {
      ScannedAfterMatch(text, n, tail, words, i);
    }
  }

  /** Piece `i` of what follows a leading match of length `n` stands to the
      text after the match as piece `i + 2` stands to the whole text. */
  lemma ScannedAfterMatch(text: string, n: nat, tail: seq<string>, words: seq<string>, i: nat)
    requires n <= |text| && i < |tail|
    ensures ScannedAt(text[n..], tail, words, i) <==> ScannedAt(text, ["", text[..n]] + tail, words, i + 2)
  {
    var pieces := ["", text[..n]] + tail;
    assert pieces == [""] + ([text[..n]] + tail);
    assert pieces[i + 2] == tail[i];
    OffsetCons("", [text[..n]] + tail, i + 2);
    OffsetCons(text[..n], tail, i + 1);
    ScannedShift(text, n, pieces, i + 2, tail, i, words);
  }

  /** The split is characterised by the scan: a sequence of pieces is the
      split of the text exactly when it has an odd number of pieces, joins
      back into the text and is cut as the scan cuts. */
  lemma SplitIsTheScan(text: string, words: seq<string>, pieces: seq<string>)
    requires ValidWords(words)
    ensures pieces == Split(text, words) <==>
      |pieces| % 2 == 1 && Concat(pieces) == text && Scanned(text, pieces, words)
  {
    SplitLossless(text, words);
    SplitScans(text, words);
    if |pieces| % 2 == 1 && Concat(pieces) == text && Scanned(text, pieces, words) {
      ScannedIsSplit(text, words, pieces);
    }
  }

  // ---------------------------------------------------------------------
  // Examples
  //
  // The example lemmas take the text as a parameter pinned by `requires`
  // rather than as a literal in the `ensures`: given a literal, the
  // verifier evaluates the whole scan over the word list at once, which
  // costs far more than the step-by-step proofs below.

  /** The scan picks word `k` at the start of `s` when it matches there and
      every earlier word is longer than `s` or begins with a
      different letter. */
  lemma FirstMatchIs(s: string, words: seq<string>, k: nat)
    requires k < |words| && StartsWithWord(s, words[k])
    requires forall j :: 0 <= j < k ==>
      |words[j]| > |s| || (0 < |words[j]| && LowerChar(s[0]) != LowerChar(words[j][0]))
    ensures FirstMatch(s, words) == Some(k)
  {
    forall j | 0 <= j < k ensures !StartsWithWord(s, words[j]) {
      NotStartingWith(s, words[j]);
    }
  }

  /** The scan finds no word at the start of `s` when every word is longer. */
  lemma FirstMatchNone(s: string, words: seq<string>)
    requires forall j :: 0 <= j < |words| ==> |words[j]| > |s|
    ensures FirstMatch(s, words) == None
  {
  }

  /** A word longer than `s`, or whose first letter differs from that of
      `s` ignoring case, does not start `s`. */
  lemma NotStartingWith(s: string, w: string)
    requires |w| > |s| || (0 < |w| <= |s| && LowerChar(s[0]) != LowerChar(w[0]))
    ensures !StartsWithWord(s, w)
  {
    if |w| <= |s| {
      assert Lower(s[..|w|])[0] != Lower(w)[0];
    }
  }

  /** A word that starts `s` verbatim starts it ignoring case. */
  lemma StartsVerbatim(s: string, w: string)
    requires w <= s
    ensures StartsWithWord(s, w)
  {
    assert s[..|w|] == w;
  }

  /** A word whose letters agree with the start of `s` ignoring case
      starts `s`. */
  lemma StartsByLetters(s: string, w: string)
    requires |w| <= |s| && forall i :: 0 <= i < |w| ==> LowerChar(s[i]) == LowerChar(w[i])
    ensures StartsWithWord(s, w)
  {
    assert Lower(s[..|w|]) == Lower(w);
  }

  lemma RegionStartsRegions(text: string)
    requires text == "regions"
    ensures FirstMatch(text, TargetWords) == Some(14)
  {
    StartsVerbatim(text, "region");
    FirstMatchIs(text, TargetWords, 14);
  }

  /** A one-letter text that no word fits into is one plain piece. */
  lemma SplitSingle(c: char, words: seq<string>)
    requires ValidWords(words)
    requires forall j :: 0 <= j < |words| ==> |words[j]| > 1
    ensures Split([c], words) == [[c]]
  {
    FirstMatchNone([c], words);
    SplitOnNoMatch([c], words);
    assert [c][1..] == [];
    assert Split([], words) == [""];
    assert [c] + "" == [c];
  }

  /** A text made of one matched word and one letter that no word fits
      into splits into an empty plain piece, the match and the letter. */
  lemma SplitMatchThenLetter(text: string, words: seq<string>, k: nat)
    requires ValidWords(words) && text != [] && FirstMatch(text, words) == Some(k)
    requires |text| == |words[k]| + 1
    requires forall j :: 0 <= j < |words| ==> |words[j]| > 1
    ensures Split(text, words) == ["", text[..|words[k]|], text[|words[k]|..]]
  {
    var n := |words[k]|;
    SplitOnMatch(text, words, k);
    assert text[n..] == [text[n]];
    SplitSingle(text[n], words);
  }

  /** Matches never overlap and scanning resumes right after a match:
      "regions" gives the match "region" followed by the plain piece "s". */
  lemma RegionsExample(text: string)
    requires text == "regions"
    ensures Split(text, TargetWords) == ["", "region", "s"]
  {
    SplitRegions(text);
    assert text[..6] == "region" && text[6..] == "s";
  }

  lemma SplitRegions(text: string)
    requires text == "regions"
    ensures Split(text, TargetWords) == ["", text[..6], text[6..]]
  {
    TargetWordsAreLong();
    RegionStartsRegions(text);
    SplitMatchThenLetter(text, TargetWords, 14);
  }

  lemma TargetWordsAreLong()
    ensures ValidWords(TargetWords)
    ensures forall j :: 0 <= j < |TargetWords| ==> |TargetWords[j]| > 1
  {
  }

  /** The first word in list order wins at a position even when a later one
      is longer, and the matched piece keeps the text's casing. */
  lemma FirstAlternativeWins(text: string)
    requires text == "Regions"
    ensures Split(text, ["region", "regions"]) == ["", "Region", "s"]
  {
    var words := ["region", "regions"];
    assert Split(text, words) == ["", text[..6], text[6..]] by {
      StartsByLetters(text, words[0]);
      FirstMatchIs(text, words, 0);
      SplitMatchThenLetter(text, words, 0);
    }
    assert text[..6] == "Region" && text[6..] == "s";
  }

  /** With the longer word listed first, the whole word is the match. */
  lemma LongerAlternativeFirst(text: string)
    requires text == "Regions"
    ensures Split(text, ["regions", "region"]) == ["", "Regions", ""]
  {
    var words := ["regions", "region"];
    StartsByLetters(text, words[0]);
    FirstMatchIs(text, words, 0);
    SplitOnMatch(text, words, 0);
    assert text[7..] == "";
    assert text[..7] == text;
  }
}
