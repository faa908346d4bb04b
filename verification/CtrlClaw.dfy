/** `CtrlClaw`: cutting a text into sentences of wide characters and what lies between them. */
module CtrlClaws {
  import opened Bytes
  import opened DictionaryScan
  import opened Utf8Codec
  import opened Utf8Splitter

  /** One entry of `sentence_words_`. */
  datatype Sentence = Sentence(text: seq<Byte>, words: seq<Piece>, multi: bool)

  type Controls = map<Piece, bool>

  /** Pieces of one or two bytes and control characters are not part of a sentence. */
  predicate IsOther(p: Piece, ctrl: Controls) {
    |p| == 1 || |p| == 2 || (p in ctrl && ctrl[p])
  }

  /** Nonempty, all of one kind, with its pieces' text. */
  predicate Homogeneous(s: Sentence, ctrl: Controls) {
    && s.words != [] && s.text == Join(s.words)
    && forall k :: 0 <= k < |s.words| ==> (IsOther(s.words[k], ctrl) <==> !s.multi)
  }

  /** Homogeneous sentences of alternating kind. */
  predicate Runs(ss: seq<Sentence>, ctrl: Controls) {
    && (forall k :: 0 <= k < |ss| ==> Homogeneous(ss[k], ctrl))
    && (forall k :: 0 <= k < |ss| - 1 ==> ss[k].multi != ss[k + 1].multi)
  }

  function AllWords(ss: seq<Sentence>): seq<Piece> {
    if ss == [] then [] else ss[0].words + AllWords(ss[1..])
  }

  function Texts(ss: seq<Sentence>): seq<seq<Byte>> {
    if ss == [] then [] else [ss[0].text] + Texts(ss[1..])
  }

  /** The texts of the multi-byte sentences. */
  function MultiTexts(ss: seq<Sentence>): seq<seq<Byte>> {
    if ss == [] then [] else MultiTexts(ss[..|ss| - 1]) + (if ss[|ss| - 1].multi then [ss[|ss| - 1].text] else [])
  }

  /** What clawing promises: the pieces of the article, cut where their kind changes. */
  predicate IsClawing(ss: seq<Sentence>, article: seq<Byte>, ctrl: Controls) {
    Runs(ss, ctrl) && AllWords(ss) == Pieces(article)
  }

  lemma {:induction false} AllWordsAppend(a: seq<Sentence>, b: seq<Sentence>)
    ensures AllWords(a + b) == AllWords(a) + AllWords(b)
  {
    if a == [] {
      assert a + b == b;
    } else {
      assert (a + b)[1..] == a[1..] + b;
      AllWordsAppend(a[1..], b);
    }
  }

  lemma RunsTail(ss: seq<Sentence>, ctrl: Controls)
    requires Runs(ss, ctrl) && ss != []
    ensures Runs(ss[1..], ctrl)
  {
  }

  /** The first sentence ends where the kind of the pieces first changes. */
  lemma FirstRun(ss: seq<Sentence>, ws: seq<Piece>, ctrl: Controls)
    requires Runs(ss, ctrl) && ss != [] && ws == AllWords(ss)
    ensures |ss[0].words| <= |ws| && ws[..|ss[0].words|] == ss[0].words && ws[|ss[0].words|..] == AllWords(ss[1..])
    ensures forall k :: 0 <= k < |ss[0].words| ==> (IsOther(ws[k], ctrl) <==> !ss[0].multi)
    ensures |ss[0].words| < |ws| ==> (IsOther(ws[|ss[0].words|], ctrl) <==> ss[0].multi)
  {
    if |ss| > 1 {
      assert ws[|ss[0].words|] == AllWords(ss[1..])[0] == ss[1].words[0];
    } else {
      assert AllWords(ss[1..]) == [];
    }
  }

  /** There is only one way to claw a text. */
  lemma {:induction false} ClawingUnique(a: seq<Sentence>, b: seq<Sentence>, ctrl: Controls)
    requires Runs(a, ctrl) && Runs(b, ctrl) && AllWords(a) == AllWords(b)
    ensures a == b
  {
    hide Join, IsOther;
    if a != [] && b != [] {
      FirstRun(a, AllWords(a), ctrl);
      FirstRun(b, AllWords(a), ctrl);
      var x := AllWords(a);
      assert a[0].multi == b[0].multi by {
        assert IsOther(x[0], ctrl) <==> !a[0].multi;
        assert IsOther(x[0], ctrl) <==> !b[0].multi;
      }
      assert |a[0].words| == |b[0].words|;
      RunsTail(a, ctrl);
      RunsTail(b, ctrl);
      assert a[0] == b[0];
      ClawingUnique(a[1..], b[1..], ctrl);
      assert a == [a[0]] + a[1..] && b == [b[0]] + b[1..];
    }
  }

  lemma {:induction false} TextsJoin(ss: seq<Sentence>, ctrl: Controls)
    requires Runs(ss, ctrl)
    ensures Join(Texts(ss)) == Join(AllWords(ss))
  {
    if ss != [] {
      RunsTail(ss, ctrl);
      TextsJoin(ss[1..], ctrl);
      JoinAppend(ss[0].words, AllWords(ss[1..]));
      assert Texts(ss)[1..] == Texts(ss[1..]);
    }
  }

  /** The sentences' texts, put together, are the article. */
  lemma ClawingLossless(ss: seq<Sentence>, article: seq<Byte>, ctrl: Controls)
    requires IsClawing(ss, article, ctrl)
    ensures Join(Texts(ss)) == article
  {
    TextsJoin(ss, ctrl);
    PiecesJoin(article);
  }

  lemma {:induction false} SentenceIsSlice(ss: seq<Sentence>, k: nat) returns (i: nat)
    requires k < |ss|
    ensures i + |ss[k].words| <= |AllWords(ss)| && ss[k].words == AllWords(ss)[i..i + |ss[k].words|]
  {
    if k == 0 {
      i := 0;
    } else {
      var j := SentenceIsSlice(ss[1..], k - 1);
      i := |ss[0].words| + j;
      assert AllWords(ss)[i..i + |ss[k].words|] == AllWords(ss[1..])[j..j + |ss[k].words|];
    }
  }

  /**
   * A multi-byte sentence holds wide characters only, splits into the same
   * pieces again, and claws to itself.
   */
  lemma MultiSentence(ss: seq<Sentence>, article: seq<Byte>, ctrl: Controls, k: nat)
    requires IsClawing(ss, article, ctrl) && k < |ss| && ss[k].multi
    ensures Splittable(ss[k].words)
    ensures forall p :: p in ss[k].words ==> |p| >= 3 && !IsOther(p, ctrl)
    ensures IsClawing([ss[k]], ss[k].text, ctrl)
  {
    hide Join, Pieces, LenOf;
    var ws := ss[k].words;
    var i := SentenceIsSlice(ss, k);
    PiecesJoin(article);
    forall j | 0 <= j < |ws| ensures ws[j] == Pieces(article)[i + j] {
    }
    PiecesUnique(ws);
    assert AllWords([ss[k]]) == ws + AllWords([]);
  }

  /**
   * Read off the table: the pieces of a multi-byte sentence have three bytes or
   * more and are not set in it; those of any other sentence have one or two, or
   * are set in it.
   */
  lemma SentenceKinds(ss: seq<Sentence>, article: seq<Byte>, ctrl: Controls)
    requires IsClawing(ss, article, ctrl)
    ensures forall k, p :: 0 <= k < |ss| && p in ss[k].words ==>
      if ss[k].multi then |p| >= 3 && !(p in ctrl && ctrl[p]) else |p| <= 2 || (p in ctrl && ctrl[p])
  {
    hide Join, Pieces, LenOf, Whole, Cut;
    forall k, p | 0 <= k < |ss| && p in ss[k].words
      ensures if ss[k].multi then |p| >= 3 && !(p in ctrl && ctrl[p]) else |p| <= 2 || (p in ctrl && ctrl[p])
    {
      var j :| 0 <= j < |ss[k].words| && ss[k].words[j] == p;
      var i := SentenceIsSlice(ss, k);
      assert p == AllWords(ss)[i + j];
      PiecesNotEmpty(article);
      assert p in Pieces(article);
    }
  }

  /** A set character that stands between two wide ones cuts them apart. */
  lemma ControlCuts(ss: seq<Sentence>, a: Piece, c: Piece, b: Piece, ctrl: Controls)
    requires IsClawing(ss, a + c + b, ctrl) && Whole(a) && Whole(c) && Whole(b)
    requires |a| >= 3 && |b| >= 3 && !(a in ctrl && ctrl[a]) && !(b in ctrl && ctrl[b]) && c in ctrl && ctrl[c]
    ensures ss == [Sentence(a, [a], true), Sentence(c, [c], false), Sentence(b, [b], true)]
    ensures MultiTexts(ss) == [a, b]
  {
    hide Whole, Pieces, Runs, AllWords, MultiTexts, IsOther, Join;
    var cut := [Sentence(a, [a], true), Sentence(c, [c], false), Sentence(b, [b], true)];
    JoinsThree(a, c, b);
    ThreeSentences(cut[0], cut[1], cut[2]);
    ThreeRuns(a, c, b, ctrl);
    ClawingUnique(ss, cut, ctrl);
  }

  lemma ThreeSentences(x: Sentence, y: Sentence, z: Sentence)
    ensures AllWords([x, y, z]) == x.words + y.words + z.words
    ensures x.multi && !y.multi && z.multi ==> MultiTexts([x, y, z]) == [x.text, z.text]
  {
    hide MultiTexts;
    assert [x, y, z][1..] == [y, z] && [y, z][1..] == [z];
    assert AllWords([z]) == z.words + AllWords([]);
    assert AllWords([y, z]) == y.words + z.words;
    MultiTextsAppend([], x);
    MultiTextsAppend([x], y);
    MultiTextsAppend([x, y], z);
    assert [] + [x] == [x] && [x] + [y] == [x, y] && [x, y] + [z] == [x, y, z];
    assert MultiTexts([]) == [] by { NoMultiTexts(); }
  }

  lemma NoMultiTexts()
    ensures MultiTexts([]) == []
  {
  }

  lemma ThreeRuns(a: Piece, c: Piece, b: Piece, ctrl: Controls)
    requires |a| >= 3 && |b| >= 3 && !(a in ctrl && ctrl[a]) && !(b in ctrl && ctrl[b]) && c in ctrl && ctrl[c]
    ensures Runs([Sentence(a, [a], true), Sentence(c, [c], false), Sentence(b, [b], true)], ctrl)
  {
    JoinOne(a);
    JoinOne(c);
    JoinOne(b);
  }

  lemma JoinsThree(a: Piece, c: Piece, b: Piece)
    requires Whole(a) && Whole(c) && Whole(b)
    ensures Pieces(a + c + b) == [a, c, b] && Join([a]) == a && Join([c]) == c && Join([b]) == b
  {
    var ps := [a, c, b];
    assert ps[1..] == [c, b] && ps[1..][1..] == [b];
    JoinOne(a);
    JoinOne(c);
    JoinOne(b);
    assert Join([c, b]) == c + Join([b]);
    assert Join(ps) == a + (c + b) == a + c + b;
    PiecesUnique(ps);
  }

  // The clawing loop.

  /**
   * The state of the loop before piece `i`: the sentences so far, and behind
   * them either pending other pieces or the pending wide pieces from `start`.
   */
  predicate Progress(ws: seq<Piece>, ctrl: Controls, i: nat, start: nat, flag: bool,
                     others: seq<Piece>, ss: seq<Sentence>) {
    && start <= i <= |ws| && Runs(ss, ctrl)
    && (if flag then OthersPending(ws, ctrl, i, start, others, ss) else MultiPending(ws, ctrl, i, start, others, ss))
  }

  predicate OthersPending(ws: seq<Piece>, ctrl: Controls, i: nat, start: nat, others: seq<Piece>, ss: seq<Sentence>)
    requires start <= i <= |ws|
  {
    && start == i && others != [] && AllWords(ss) + others == ws[..i]
    && (forall k :: 0 <= k < |others| ==> IsOther(others[k], ctrl))
    && (ss != [] ==> ss[|ss| - 1].multi)
  }

  predicate MultiPending(ws: seq<Piece>, ctrl: Controls, i: nat, start: nat, others: seq<Piece>, ss: seq<Sentence>)
    requires start <= i <= |ws|
  {
    && others == [] && AllWords(ss) + ws[start..i] == ws[..i]
    && (forall k :: start <= k < i ==> !IsOther(ws[k], ctrl))
    && (if start < i then ss != [] ==> !ss[|ss| - 1].multi else i == 0 && ss == [])
  }

  /** The sentence of the wide pieces from `start`, if there are any. */
  function PendingMulti(ws: seq<Piece>, start: nat, i: nat): seq<Sentence>
    requires start <= i <= |ws|
  {
    if start < i then [Sentence(Join(ws[start..i]), ws[start..i], true)] else []
  }

  /** The sentence of the pending other pieces, if there are any. */
  function PendingOthers(others: seq<Piece>): seq<Sentence> {
    if others != [] then [Sentence(Join(others), others, false)] else []
  }

  lemma AllWordsSnoc(ss: seq<Sentence>, s: Sentence)
    ensures AllWords(ss + [s]) == AllWords(ss) + s.words
  {
    AllWordsAppend(ss, [s]);
    assert AllWords([s]) == s.words + AllWords([]);
  }

  lemma RunsSnoc(ss: seq<Sentence>, s: Sentence, ctrl: Controls)
    requires Runs(ss, ctrl) && Homogeneous(s, ctrl) && (ss != [] ==> ss[|ss| - 1].multi != s.multi)
    ensures Runs(ss + [s], ctrl) && AllWords(ss + [s]) == AllWords(ss) + s.words
  {
    hide Homogeneous, AllWords;
    AllWordsSnoc(ss, s);
  }

  /** Closing the wide pieces from `start`. */
  lemma MultiClosed(ws: seq<Piece>, ctrl: Controls, i: nat, start: nat, others: seq<Piece>, ss: seq<Sentence>)
    requires start <= i <= |ws| && Runs(ss, ctrl) && MultiPending(ws, ctrl, i, start, others, ss)
    ensures var all := ss + PendingMulti(ws, start, i);
      Runs(all, ctrl) && AllWords(all) == ws[..i] && (all != [] ==> all[|all| - 1].multi)
  {
    hide Join, AllWords, IsOther, Runs;
    if start < i {
      var s := PendingMulti(ws, start, i)[0];
      assert Homogeneous(s, ctrl) by {
        assert forall k :: 0 <= k < i - start ==> s.words[k] == ws[start + k];
      }
      RunsSnoc(ss, s, ctrl);
    } else {
      assert ss + PendingMulti(ws, start, i) == ss;
      NoWords();
    }
  }

  /** Closing the pending other pieces. */
  lemma OthersClosed(ws: seq<Piece>, ctrl: Controls, i: nat, start: nat, others: seq<Piece>, ss: seq<Sentence>)
    requires start <= i <= |ws| && Runs(ss, ctrl) && OthersPending(ws, ctrl, i, start, others, ss)
    ensures var all := ss + PendingOthers(others);
      Runs(all, ctrl) && AllWords(all) == ws[..i] && all != [] && !all[|all| - 1].multi
  {
    hide Join, AllWords, IsOther, Runs;
    RunsSnoc(ss, PendingOthers(others)[0], ctrl);
  }

  lemma OtherNext(ws: seq<Piece>, ctrl: Controls, i: nat, start: nat, flag: bool, others: seq<Piece>, ss: seq<Sentence>)
    requires Progress(ws, ctrl, i, start, flag, others, ss) && i < |ws| && IsOther(ws[i], ctrl)
    ensures Progress(ws, ctrl, i + 1, i + 1, true, others + [ws[i]], ss + PendingMulti(ws, start, i))
  {
    hide Join, AllWords, IsOther, Runs;
    assert ws[..i + 1] == ws[..i] + [ws[i]];
    if flag {
      assert ss + PendingMulti(ws, start, i) == ss;
      assert AllWords(ss) + (others + [ws[i]]) == AllWords(ss) + others + [ws[i]];
    } else {
      MultiClosed(ws, ctrl, i, start, others, ss);
      assert others + [ws[i]] == [ws[i]];
    }
  }

  lemma MultiNext(ws: seq<Piece>, ctrl: Controls, i: nat, start: nat, flag: bool, others: seq<Piece>, ss: seq<Sentence>)
    requires Progress(ws, ctrl, i, start, flag, others, ss) && i < |ws| && !IsOther(ws[i], ctrl)
    ensures Progress(ws, ctrl, i + 1, start, false, [], ss + PendingOthers(others))
    ensures flag <==> others != []
    ensures !flag ==> ss + PendingOthers(others) == ss
  {
    hide Join, AllWords, IsOther, Runs;
    assert ws[..i + 1] == ws[..i] + [ws[i]] && ws[start..i + 1] == ws[start..i] + [ws[i]];
    if flag {
      OthersClosed(ws, ctrl, i, start, others, ss);
      assert ws[start..i] == [];
    } else {
      assert ss + PendingOthers(others) == ss;
      assert AllWords(ss) + (ws[start..i] + [ws[i]]) == AllWords(ss) + ws[start..i] + [ws[i]];
    }
  }

  lemma NoWords()
    ensures AllWords([]) == []
  {
  }

  lemma LastPushed(ws: seq<Piece>, ctrl: Controls, start: nat, flag: bool, others: seq<Piece>, ss: seq<Sentence>)
    requires Progress(ws, ctrl, |ws|, start, flag, others, ss)
    ensures var all := ss + PendingMulti(ws, start, |ws|) + PendingOthers(others);
      Runs(all, ctrl) && AllWords(all) == ws
  {
    hide Join, AllWords, IsOther, Runs;
    assert ws[..|ws|] == ws;
    var multi := ss + PendingMulti(ws, start, |ws|);
    if flag {
      assert multi == ss;
      OthersClosed(ws, ctrl, |ws|, start, others, ss);
    } else {
      assert multi + PendingOthers(others) == multi;
      MultiClosed(ws, ctrl, |ws|, start, others, ss);
    }
  }

  lemma NoneAtStart(ws: seq<Piece>, ctrl: Controls)
    ensures Progress(ws, ctrl, 0, 0, false, [], [])
  {
  }

  /** The pieces that are not others, in order. */
  function Wide(ws: seq<Piece>, ctrl: Controls): seq<Piece> {
    if ws == [] then []
    else Wide(ws[..|ws| - 1], ctrl) + (if IsOther(ws[|ws| - 1], ctrl) then [] else [ws[|ws| - 1]])
  }

  lemma WideSnoc(ws: seq<Piece>, p: Piece, ctrl: Controls)
    ensures Wide(ws + [p], ctrl) == Wide(ws, ctrl) + (if IsOther(p, ctrl) then [] else [p])
  {
    assert (ws + [p])[..|ws|] == ws;
  }

  lemma NothingWide(ctrl: Controls)
    ensures Wide([], ctrl) == [] && Join<Byte>([]) == []
  {
  }

  lemma {:induction false} AllWide(ws: seq<Piece>, ctrl: Controls)
    requires forall k :: 0 <= k < |ws| ==> !IsOther(ws[k], ctrl)
    ensures Wide(ws, ctrl) == ws
  {
    if ws != [] {
      AllWide(ws[..|ws| - 1], ctrl);
    }
  }

  // Positions.

  lemma {:induction false} OffsetShift(ps: seq<Piece>, i: nat)
    requires i < |ps|
    ensures Offset(ps, i + 1) == |ps[0]| + Offset(ps[1..], i)
  {
    if i > 0 {
      OffsetShift(ps, i - 1);
    }
  }

  /** The recorded positions are the offsets of the pieces. */
  lemma {:induction false} StartsAreOffsets(ps: seq<Piece>, at: nat, i: nat)
    requires i < |ps|
    ensures Starts(ps, at)[i] == at + Offset(ps, i)
  {
    if i > 0 {
      StartsAreOffsets(ps[1..], at + |ps[0]|, i - 1);
      OffsetShift(ps, i - 1);
    }
  }

  /** Slices of the article between two pieces. */
  lemma SliceBetween(article: seq<Byte>, ws: seq<Piece>, i: nat, j: nat)
    requires ws == Pieces(article) && i <= j <= |ws|
    ensures Offset(ws, i) <= Offset(ws, j) <= |article|
    ensures Offset(ws, i) < Offset(ws, j) <==> i < j
    ensures article[Offset(ws, i)..Offset(ws, j)] == Join(ws[i..j])
    ensures Offset(ws, |ws|) == |article|
    ensures j < |ws| ==> Starts(ws, 0)[j] == Offset(ws, j) && Offset(ws, j + 1) == Offset(ws, j) + |ws[j]|
  {
    hide Pieces, Join, Window, Starts, LenOf;
    PiecesJoin(article);
    WindowIsJoin(ws, 0, |ws|);
    assert ws[0..|ws|] == ws;
    WindowIsJoin(ws, i, j);
    WindowIsSlice(ws, i, j);
    OffsetSplit(ws, i, j);
    OffsetSplit(ws, 0, |ws|);
    OffsetSplit(ws, 0, j);
    WindowSplit(ws, 0, j, |ws|);
    if i < j {
      OffsetsGrow(ws, i, j);
    }
    if j < |ws| {
      StartsAreOffsets(ws, 0, j);
    }
  }

  lemma MultiTextsAppend(ss: seq<Sentence>, s: Sentence)
    ensures MultiTexts(ss + [s]) == MultiTexts(ss) + (if s.multi then [s.text] else [])
  {
    assert (ss + [s])[..|ss|] == ss;
  }

  /** At the end of the loop the pieces from `start` on are wide, and other pieces have a text. */
  lemma PendingIsWide(ws: seq<Piece>, ctrl: Controls, start: nat, flag: bool, others: seq<Piece>, ss: seq<Sentence>)
    requires Progress(ws, ctrl, |ws|, start, flag, others, ss)
    requires forall p :: p in ws ==> p != []
    ensures Wide(ws[start..], ctrl) == ws[start..|ws|]
    ensures others != [] ==> Join(others) != []
  {
    hide AllWords, Runs;
    AllWide(ws[start..], ctrl);
    if others != [] {
      assert others[0] in AllWords(ss) + others;
      assert ws[..|ws|] == ws;
    }
  }

  lemma PiecesNotEmpty(article: seq<Byte>)
    ensures forall p :: p in Pieces(article) ==> p != []
  {
    PiecesJoin(article);
  }

  class CtrlClaw {
    const gCtrlMultiByteWord: Controls
    var article: seq<Byte>
    var sentences: seq<seq<Byte>>
    var sentenceWords: seq<Sentence>
    var words: seq<Piece>
    var positions: seq<nat>

    constructor (controls: Controls)
      ensures gCtrlMultiByteWord == controls && sentenceWords == [] && sentences == [] && words == [] && positions == []
    {
      gCtrlMultiByteWord := controls;
      article, sentences, sentenceWords, words, positions := [], [], [], [], [];
    }

    method Clear()
      modifies this
      ensures article == [] && sentences == [] && sentenceWords == [] && words == [] && positions == []
    {
      article, sentences, sentenceWords, words, positions := [], [], [], [], [];
    }

    method IsCtrlMultiByte(utf8: Piece) returns (ctrl: bool)
      ensures IsOther(utf8, gCtrlMultiByteWord) <==> |utf8| == 1 || |utf8| == 2 || ctrl
    {
      if utf8 in gCtrlMultiByteWord {
        return gCtrlMultiByteWord[utf8];
      }
      return false;
    }

    /** Only splits. */
    method Cut(text: seq<Byte>)
      modifies this
      ensures article == text && words == Pieces(text) && positions == Starts(Pieces(text), 0)
      ensures sentences == [] && sentenceWords == []
    {
      Clear();
      article := text;
      words, positions := ParseUTF8(text, words, positions);
    }

    /** Closes the wide pieces from `start` up to piece `i`, if there are any. */
    method PushMulti(start: nat, i: nat, startPos: nat)
      requires start <= i < |words| && words == Pieces(article) && positions == Starts(words, 0)
      requires startPos == Offset(words, start) && sentences == MultiTexts(sentenceWords)
      modifies `sentences, `sentenceWords
      ensures sentenceWords == old(sentenceWords) + PendingMulti(words, start, i)
      ensures sentences == MultiTexts(sentenceWords)
    {
      hide Pieces, Offset, Starts, MultiTexts, Join;
      SliceBetween(article, words, start, i);
      var size := positions[i] - startPos;
      if size > 0 {
        var sub := article[startPos..startPos + size];
        sentences := sentences + [sub];
        MultiTextsAppend(sentenceWords, Sentence(sub, words[start..i], true));
        sentenceWords := sentenceWords + [Sentence(sub, words[start..i], true)];
      }
    }

    /** Closes the pending other pieces. */
    method PushOthers(otherWord: seq<Byte>, otherWordVect: seq<Piece>)
      requires otherWordVect != [] && otherWord == Join(otherWordVect) && sentences == MultiTexts(sentenceWords)
      modifies `sentenceWords
      ensures sentenceWords == old(sentenceWords) + PendingOthers(otherWordVect)
      ensures sentences == MultiTexts(sentenceWords)
    {
      MultiTextsAppend(sentenceWords, Sentence(otherWord, otherWordVect, false));
      sentenceWords := sentenceWords + [Sentence(otherWord, otherWordVect, false)];
    }

    /** Behind the loop: what is still pending becomes the last sentence. */
    method PushLast(start: nat, startPos: nat, ghost otherFlag: bool, otherWord: seq<Byte>, otherWordVect: seq<Piece>)
      requires AtPiece(|words|, start, startPos, otherFlag, otherWord, otherWordVect)
      modifies `sentences, `sentenceWords
      ensures IsClawing(sentenceWords, article, gCtrlMultiByteWord) && sentences == MultiTexts(sentenceWords)
    {
      hide Pieces, Offset, Join, Progress, AllWords, Wide, IsOther, MultiTexts, Runs;
      LastPushed(words, gCtrlMultiByteWord, start, otherFlag, otherWordVect, sentenceWords);
      SliceBetween(article, words, start, |words|);
      PiecesNotEmpty(article);
      PendingIsWide(words, gCtrlMultiByteWord, start, otherFlag, otherWordVect, sentenceWords);
      if startPos < |article| {
        var sub, subwords := CollectWide(start);
        assert words[start..] == words[start..|words|];
        sentences := sentences + [sub];
        MultiTextsAppend(sentenceWords, Sentence(sub, subwords, true));
        sentenceWords := sentenceWords + [Sentence(sub, subwords, true)];
      }
      assert sentenceWords == old(sentenceWords) + PendingMulti(words, start, |words|);
      if otherWord != [] && otherWordVect != [] {
        PushOthers(otherWord, otherWordVect);
      }
      assert sentenceWords == old(sentenceWords) + PendingMulti(words, start, |words|) + PendingOthers(otherWordVect);
    }

    /** The pieces from `start` that are wide, and their text. */
    method CollectWide(start: nat) returns (sub: seq<Byte>, subwords: seq<Piece>)
      requires start <= |words|
      ensures subwords == Wide(words[start..], gCtrlMultiByteWord) && sub == Join(subwords)
    {
      hide Wide, Join, IsOther;
      NothingWide(gCtrlMultiByteWord);
      assert words[start..start] == [];
      sub, subwords := [], [];
      var j := start;
      while j < |words|
        invariant start <= j <= |words|
        invariant subwords == Wide(words[start..j], gCtrlMultiByteWord) && sub == Join(subwords)
      {
        assert words[start..j + 1] == words[start..j] + [words[j]];
        WideSnoc(words[start..j], words[j], gCtrlMultiByteWord);
        var ctrl := IsCtrlMultiByte(words[j]);
        if !(|words[j]| == 1 || |words[j]| == 2 || ctrl) {
          JoinSnoc(subwords, words[j]);
          subwords := subwords + [words[j]];
          sub := sub + words[j];
        }
        j := j + 1;
      }
      assert words[start..j] == words[start..];
    }

    /** The loop's variables before piece `i`. */
    ghost predicate AtPiece(i: nat, start: nat, startPos: nat, otherFlag: bool, otherWord: seq<Byte>,
                            otherWordVect: seq<Piece>)
      reads this
    {
      && start <= i <= |words| && words == Pieces(article) && positions == Starts(words, 0)
      && Progress(words, gCtrlMultiByteWord, i, start, otherFlag, otherWordVect, sentenceWords)
      && startPos == Offset(words, start) && otherWord == Join(otherWordVect)
      && sentences == MultiTexts(sentenceWords)
    }

    /** A piece of the other kind closes the sentence before it and waits. */
    method TakeOther(i: nat, start: nat, startPos: nat, ghost otherFlag: bool, otherWord: seq<Byte>,
                     otherWordVect: seq<Piece>)
      returns (nextPos: nat, word: seq<Byte>, wordVect: seq<Piece>)
      requires AtPiece(i, start, startPos, otherFlag, otherWord, otherWordVect)
      requires i < |words| && IsOther(words[i], gCtrlMultiByteWord)
      modifies `sentences, `sentenceWords
      ensures AtPiece(i + 1, i + 1, nextPos, true, word, wordVect)
    {
      hide Pieces, Starts, Offset, Join, Progress, IsOther, AllWords, MultiTexts, PendingMulti;
      OtherNext(words, gCtrlMultiByteWord, i, start, otherFlag, otherWordVect, sentenceWords);
      SliceBetween(article, words, start, i);
      JoinSnoc(otherWordVect, words[i]);
      PushMulti(start, i, startPos);
      nextPos := positions[i] + |words[i]|;
      word := otherWord + words[i];
      wordVect := otherWordVect + [words[i]];
    }

    /** A wide piece closes the other pieces before it. */
    method TakeWide(i: nat, ghost start: nat, ghost startPos: nat, otherFlag: bool, otherWord: seq<Byte>,
                    otherWordVect: seq<Piece>)
      returns (word: seq<Byte>, wordVect: seq<Piece>)
      requires AtPiece(i, start, startPos, otherFlag, otherWord, otherWordVect)
      requires i < |words| && !IsOther(words[i], gCtrlMultiByteWord)
      modifies `sentenceWords
      ensures AtPiece(i + 1, start, startPos, false, word, wordVect)
    {
      assert Join<Byte>([]) == [];
      hide Pieces, Starts, Offset, Join, Progress, IsOther, AllWords, MultiTexts, PendingOthers;
      MultiNext(words, gCtrlMultiByteWord, i, start, otherFlag, otherWordVect, sentenceWords);
      word, wordVect := otherWord, otherWordVect;
      if otherFlag {
        PushOthers(otherWord, otherWordVect);
        word, wordVect := [], [];
      }
    }

    /** One turn of the loop. */
    method TakePiece(i: nat, start0: nat, startPos0: nat, otherFlag0: bool, otherWord0: seq<Byte>,
                     otherWordVect0: seq<Piece>)
      returns (start: nat, startPos: nat, otherFlag: bool, otherWord: seq<Byte>, otherWordVect: seq<Piece>)
      requires i < |words| && AtPiece(i, start0, startPos0, otherFlag0, otherWord0, otherWordVect0)
      modifies `sentences, `sentenceWords
      ensures AtPiece(i + 1, start, startPos, otherFlag, otherWord, otherWordVect)
    {
      hide AtPiece, IsOther;
      start, startPos, otherFlag := start0, startPos0, false;
      var ctrl := IsCtrlMultiByte(words[i]);
      if |words[i]| == 1 || |words[i]| == 2 || ctrl {
        startPos, otherWord, otherWordVect := TakeOther(i, start0, startPos0, otherFlag0, otherWord0, otherWordVect0);
        start, otherFlag := i + 1, true;
      } else {
        otherWord, otherWordVect := TakeWide(i, start0, startPos0, otherFlag0, otherWord0, otherWordVect0);
      }
    }

    lemma AtStart()
      requires words == Pieces(article) && positions == Starts(words, 0) && sentences == [] && sentenceWords == []
      ensures AtPiece(0, 0, 0, false, [], [])
    {
      NoneAtStart(words, gCtrlMultiByteWord);
    }

    /** The loop over the pieces. */
    method ClawPieces()
      requires words == Pieces(article) && positions == Starts(words, 0) && sentences == [] && sentenceWords == []
      modifies `sentences, `sentenceWords
      ensures IsClawing(sentenceWords, article, gCtrlMultiByteWord)
      ensures sentences == MultiTexts(sentenceWords)
    {
      hide Pieces, Starts, AtPiece, IsClawing, MultiTexts, LenOf;
      AtStart();
      var startPos: nat, start: nat, otherFlag := 0, 0, false;
      var otherWord: seq<Byte>, otherWordVect: seq<Piece> := [], [];
      var i := 0;
      while i < |words|
        invariant 0 <= i <= |words|
        invariant AtPiece(i, start, startPos, otherFlag, otherWord, otherWordVect)
      {
        start, startPos, otherFlag, otherWord, otherWordVect :=
          TakePiece(i, start, startPos, otherFlag, otherWord, otherWordVect);
        i := i + 1;
      }
      PushLast(start, startPos, otherFlag, otherWord, otherWordVect);
    }

    /** `claw`: cuts the text into pieces and the pieces into sentences. */
    method Claw(text: seq<Byte>)
      modifies this
      ensures article == text && words == Pieces(text) && positions == Starts(Pieces(text), 0)
      ensures IsClawing(sentenceWords, text, gCtrlMultiByteWord)
      ensures sentences == MultiTexts(sentenceWords)
      ensures forall k, p :: 0 <= k < |sentenceWords| && p in sentenceWords[k].words ==>
        var control := p in gCtrlMultiByteWord && gCtrlMultiByteWord[p];
        if sentenceWords[k].multi then |p| >= 3 && !control else |p| <= 2 || control
    {
      hide Pieces, Starts, IsClawing, MultiTexts, LenOf;
      Clear();
      article := text;
      words, positions := ParseUTF8(text, words, positions);
      ClawPieces();
      SentenceKinds(sentenceWords, article, gCtrlMultiByteWord);
    }
  }
}
