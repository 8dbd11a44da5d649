/** Overlapping chunks of a section: what they cover and what the length filter may drop. */
module Chunks {
  import opened Prelude
  import opened Text

  const MIN_WORDS := 8

  // ---- Words ----

  /** The leading run of characters that are not white space. */
  function Word(s: string): (w: string)
    ensures |w| <= |s| && (|s| > 0 && !IsSpace(s[0]) ==> |w| > 0)
  {
    if |s| > 0 && !IsSpace(s[0]) then [s[0]] + Word(s[1..]) else ""
  }

  function Split(s: string): seq<string> {
    if |s| == 0 then []
    else if IsSpace(s[0]) then Split(s[1..])
    else [Word(s)] + Split(s[|Word(s)|..])
  }

  function Join(words: seq<string>): string {
    if |words| == 0 then "" else if |words| == 1 then words[0] else words[0] + " " + Join(words[1..])
  }

  lemma {:induction false} WordStops(a: string, c: char, b: string)
    requires IsSpace(c)
    ensures Word(a + [c] + b) == Word(a)
  {
    if |a| > 0 && !IsSpace(a[0]) {
      assert (a + [c] + b)[1..] == a[1..] + [c] + b;
      WordStops(a[1..], c, b);
    }
  }

  lemma {:induction false} SplitAtSpace(a: string, c: char, b: string)
    requires IsSpace(c)
    ensures Split(a + [c] + b) == Split(a) + Split(b)
    decreases |a|
  {
    var s := a + [c] + b;
    if |a| == 0 {
      assert s[1..] == b;
    } else if IsSpace(a[0]) {
      assert s[1..] == a[1..] + [c] + b;
      SplitAtSpace(a[1..], c, b);
    } else {
      WordStops(a, c, b);
      var n := |Word(a)|;
      assert s[n..] == a[n..] + [c] + b;
      SplitAtSpace(a[n..], c, b);
    }
  }

  lemma {:induction false} SplitStripLeft(s: string)
    ensures Split(StripLeft(s)) == Split(s)
  {
    if |s| > 0 && IsSpace(s[0]) { SplitStripLeft(s[1..]); }
  }

  lemma {:induction false} SplitStripRight(s: string)
    ensures Split(StripRight(s)) == Split(s)
  {
    if |s| > 0 && IsSpace(s[|s| - 1]) {
      var front := s[..|s| - 1];
      SplitStripRight(front);
      SplitAtSpace(front, s[|s| - 1], "");
      assert s == front + [s[|s| - 1]] + "";
    }
  }

  lemma SplitStrip(s: string)
    ensures Split(Strip(s)) == Split(s)
  {
    SplitStripLeft(s);
    SplitStripRight(StripLeft(s));
  }

  /** How many words a list of joined strings splits into. */
  function Weight(words: seq<string>): nat { if |words| == 0 then 0 else |Split(words[0])| + Weight(words[1..]) }

  lemma {:induction false} JoinWeight(words: seq<string>)
    ensures |Split(Join(words))| == Weight(words)
  {
    if |words| > 1 {
      JoinWeight(words[1..]);
      SplitAtSpace(words[0], ' ', Join(words[1..]));
      assert words[0] + " " + Join(words[1..]) == words[0] + [' '] + Join(words[1..]);
    } else if |words| == 1 {
      assert words[1..] == [];
    }
  }

  lemma {:induction false} WordIsOneWord(s: string)
    requires |s| > 0 && !IsSpace(s[0])
    ensures Split(Word(s)) == [Word(s)]
  {
    var w := Word(s);
    WordHasNoSpace(s);
    WholeWord(w);
    assert w[|w|..] == "";
  }

  lemma {:induction false} WordHasNoSpace(s: string)
    ensures forall i | 0 <= i < |Word(s)| :: !IsSpace(Word(s)[i])
  {
    if |s| > 0 && !IsSpace(s[0]) { WordHasNoSpace(s[1..]); }
  }

  lemma {:induction false} WholeWord(w: string)
    requires forall i | 0 <= i < |w| :: !IsSpace(w[i])
    ensures Word(w) == w
  {
    if |w| > 0 { WholeWord(w[1..]); }
  }

  lemma {:induction false} SplitGivesWords(s: string)
    ensures forall w | w in Split(s) :: Split(w) == [w]
    decreases |s|
  {
    if |s| == 0 {
    } else if IsSpace(s[0]) {
      SplitGivesWords(s[1..]);
    } else {
      WordIsOneWord(s);
      SplitGivesWords(s[|Word(s)|..]);
    }
  }

  lemma SplitOfLonger(word: string, rest: seq<string>)
    requires |rest| > 0
    ensures Split(Join([word] + rest)) == Split(word) + Split(Join(rest))
  {
    assert ([word] + rest)[1..] == rest;
    assert Join([word] + rest) == word + [' '] + Join(rest);
    SplitAtSpace(word, ' ', Join(rest));
  }

  lemma {:induction false} SplitOfJoined(words: seq<string>)
    requires forall w | w in words :: Split(w) == [w]
    ensures Split(Join(words)) == words
  {
    if |words| > 1 {
      var word, rest := words[0], words[1..];
      assert words == [word] + rest;
      SplitOfJoined(rest);
      SplitOfLonger(word, rest);
    }
  }

  /** Joining the words of a text and splitting again gives the same words. */
  lemma SplitJoinSplit(text: string)
    ensures Split(Join(Split(text))) == Split(text)
  {
    SplitGivesWords(text);
    SplitOfJoined(Split(text));
  }

  // ---- Pieces ----

  function SectionWords(title: string, text: string): seq<string> {
    if title != "General" then [title] + Split(text) else Split(text)
  }

  /** The word slices, before the length filter: `size` words each, every one starting size - overlap after the last. */
  function Pieces(words: seq<string>, start: nat, size: nat, overlap: nat): seq<seq<string>>
    requires overlap < size && start <= |words|
    decreases |words| - start
  {
    if start + size >= |words| then [words[start..]]
    else [words[start..start + size]] + Pieces(words, start + (size - overlap), size, overlap)
  }

  function TextOf(piece: seq<string>): string { Strip(Join(piece)) }

  predicate LongEnough(piece: seq<string>) { |Split(TextOf(piece))| >= MIN_WORDS }

  function KeptOne(piece: seq<string>): seq<string> { if LongEnough(piece) then [TextOf(piece)] else [] }

  function Kept(pieces: seq<seq<string>>): seq<string> {
    if |pieces| == 0 then [] else KeptOne(pieces[0]) + Kept(pieces[1..])
  }

  lemma KeptCons(piece: seq<string>, rest: seq<seq<string>>)
    ensures Kept([piece] + rest) == KeptOne(piece) + Kept(rest)
  {
    assert ([piece] + rest)[1..] == rest;
  }

  lemma {:induction false} KeptSnoc(front: seq<seq<string>>, piece: seq<string>)
    ensures Kept(front + [piece]) == Kept(front) + KeptOne(piece)
  {
    if |front| == 0 {
      assert front + [piece] == [piece] && [piece][1..] == [];
    } else {
      assert (front + [piece])[1..] == front[1..] + [piece];
      KeptSnoc(front[1..], piece);
    }
  }

  /** The chunks are, in order, the trimmed joins of the slices at positions `at`, each of at least eight words; every
      other slice has fewer. */
  ghost predicate LongSlices(chunks: seq<string>, slices: seq<seq<string>>, at: seq<nat>) {
    |at| == |chunks| && (forall j, k | 0 <= j < k < |at| :: at[j] < at[k]) &&
    (forall k | 0 <= k < |at| ::
       at[k] < |slices| && chunks[k] == Strip(Join(slices[at[k]])) && |Split(chunks[k])| >= 8) &&
    forall i: nat | i < |slices| && i !in at :: |Split(Strip(Join(slices[i])))| < 8
  }

  lemma LongSlicesSnoc(chunks: seq<string>, slices: seq<seq<string>>, at: seq<nat>, slice: seq<string>, line: string)
    requires LongSlices(chunks, slices, at) && line == Strip(Join(slice))
    ensures |Split(line)| >= 8 ==> LongSlices(chunks + [line], slices + [slice], at + [|slices|])
    ensures |Split(line)| < 8 ==> LongSlices(chunks, slices + [slice], at)
  {
    var n, count, more := |slices|, |Split(line)|, slices + [slice];
    forall i: nat | i < n && i !in at ensures |Split(Strip(Join(more[i])))| < 8 { assert more[i] == slices[i]; }
    if count >= 8 {
      forall i: nat | i < n && i !in at + [n] ensures |Split(Strip(Join(more[i])))| < 8 { assert i !in at; }
    }
  }

  lemma {:induction false} KeptAreLong(slices: seq<seq<string>>) returns (at: seq<nat>)
    ensures LongSlices(Kept(slices), slices, at)
  {
    at := [];
    if |slices| > 0 {
      var n := |slices| - 1;
      at := KeptAreLong(slices[..n]);
      assert slices == slices[..n] + [slices[n]];
      KeptSnoc(slices[..n], slices[n]);
      LongSlicesSnoc(Kept(slices[..n]), slices[..n], at, slices[n], TextOf(slices[n]));
      at := if LongEnough(slices[n]) then at + [n] else at;
    }
  }

  /** The pieces after the first one. */
  function PiecesAfter(words: seq<string>, start: nat, size: nat, overlap: nat): seq<seq<string>>
    requires overlap < size && start < |words|
  {
    if start + size >= |words| then [] else Pieces(words, start + (size - overlap), size, overlap)
  }

  lemma PiecesCons(words: seq<string>, start: nat, size: nat, overlap: nat)
    requires overlap < size && start < |words|
    ensures Pieces(words, start, size, overlap) ==
            [words[start..Min(start + size, |words|)]] + PiecesAfter(words, start, size, overlap)
  {
    if start + size >= |words| { assert words[start..Min(start + size, |words|)] == words[start..]; }
  }

  lemma KeptOfPieces(words: seq<string>, start: nat, size: nat, overlap: nat)
    requires overlap < size && start < |words|
    ensures Kept(Pieces(words, start, size, overlap)) ==
            KeptOne(words[start..Min(start + size, |words|)]) + Kept(PiecesAfter(words, start, size, overlap))
  {
    PiecesCons(words, start, size, overlap);
    KeptCons(words[start..Min(start + size, |words|)], PiecesAfter(words, start, size, overlap));
  }

  /** The chunks yet to be produced from `start` on. */
  function Remaining(words: seq<string>, start: nat, size: nat, overlap: nat): seq<string>
    requires overlap < size && start < |words|
  {
    Kept(Pieces(words, start, size, overlap))
  }

  lemma AddedInOrder(a: seq<string>, b: seq<string>, c: seq<string>)
    ensures a + (b + c) == (a + b) + c
  {}

  /** The piece at `start` joins the chunks when it is long enough, and what remains is what follows it. */
  method AddPiece(words: seq<string>, start: nat, size: nat, overlap: nat, chunks: seq<string>)
    returns (more: seq<string>)
    requires overlap < size && start < |words|
    ensures start + size >= |words| ==> chunks + Remaining(words, start, size, overlap) == more
    ensures start + size < |words| ==>
              chunks + Remaining(words, start, size, overlap) ==
              more + Remaining(words, start + (size - overlap), size, overlap)
  {
    var piece := words[start..Min(start + size, |words|)];
    var line := Strip(Join(piece));
    more := if |Split(line)| >= MIN_WORDS then chunks + [line] else chunks;
    KeptOfPieces(words, start, size, overlap);
    AddedInOrder(chunks, KeptOne(piece), Kept(PiecesAfter(words, start, size, overlap)));
  }

  /** Slicing and filtering in one pass gives the pieces cut first and filtered afterwards. */
  method CutWords(words: seq<string>, size: nat, overlap: nat) returns (chunks: seq<string>)
    requires overlap < size && |words| > 0
    ensures chunks == Kept(Pieces(words, 0, size, overlap))
  {
    ghost var all := Remaining(words, 0, size, overlap);
    chunks := [];
    var start: nat := 0;
    while start < |words|
      invariant start < |words| && all == chunks + Remaining(words, start, size, overlap)
    {
      chunks := AddPiece(words, start, size, overlap, chunks);
      if start + size >= |words| { break; }
      start := start + (size - overlap);
    }
  }

  method ChunkSection(title: string, text: string, size: nat, overlap: nat) returns (chunks: seq<string>)
    requires overlap < size
    ensures var words := SectionWords(title, text);
            chunks == if |words| == 0 then [] else Kept(Pieces(words, 0, size, overlap))
    ensures exists at :: LongSlices(chunks, Pieces(SectionWords(title, text), 0, size, overlap), at)
  {
    var at := KeptAreLong(Pieces(SectionWords(title, text), 0, size, overlap));
    SplitJoinSplit(text);
    var words := Split(Join(Split(text)));
    if title != "General" { words := [title] + words; }
    if |words| == 0 {
      assert LongSlices([], [[]], []);
      return [];
    }
    chunks := CutWords(words, size, overlap);
    assert LongSlices(chunks, Pieces(SectionWords(title, text), 0, size, overlap), at);
  }

  // ---- Reconstruction ----

  /** The first piece followed by what each later piece adds after its overlap. */
  function Glue(pieces: seq<seq<string>>, overlap: nat): seq<string>
    requires forall k | 1 <= k < |pieces| :: overlap <= |pieces[k]|
  {
    if |pieces| == 0 then []
    else if |pieces| == 1 then pieces[0]
    else Glue(pieces[..|pieces| - 1], overlap) + pieces[|pieces| - 1][overlap..]
  }

  /** Every piece but the last has exactly `size` words, and every later piece reaches past its overlap. */
  lemma {:induction false} PieceSizes(words: seq<string>, start: nat, size: nat, overlap: nat)
    requires overlap < size && start < |words|
    ensures var ps := Pieces(words, start, size, overlap);
            |ps| > 0 && |ps[0]| == Min(size, |words| - start) &&
            (forall k | 0 <= k < |ps| - 1 :: |ps[k]| == size) &&
            (forall k | 1 <= k < |ps| :: overlap < |ps[k]| <= size) &&
            (|ps| == 1 <==> start + size >= |words|)
    decreases |words| - start
  {
    if start + size < |words| { PieceSizes(words, start + (size - overlap), size, overlap); }
  }

  function StartOf(k: nat, size: nat, overlap: nat): nat
    requires overlap < size
  {
    k * (size - overlap)
  }

  function EndOf(words: seq<string>, k: nat, size: nat, overlap: nat): nat
    requires overlap < size
  {
    Min(StartOf(k, size, overlap) + size, |words|)
  }

  lemma NextStart(k: nat, size: nat, overlap: nat)
    requires overlap < size
    ensures StartOf(k + 1, size, overlap) == StartOf(k, size, overlap) + (size - overlap)
  {}

  lemma {:induction false} PieceFrom(words: seq<string>, start: nat, size: nat, overlap: nat, k: nat)
    requires overlap < size && start < |words| && k < |Pieces(words, start, size, overlap)|
    ensures var from := start + StartOf(k, size, overlap);
            from < |words| && Pieces(words, start, size, overlap)[k] == words[from..Min(from + size, |words|)]
    decreases k
  {
    PiecesCons(words, start, size, overlap);
    if k == 0 {
      assert StartOf(k, size, overlap) == 0;
    } else {
      assert Pieces(words, start, size, overlap)[k] == PiecesAfter(words, start, size, overlap)[k - 1];
      PieceFrom(words, start + (size - overlap), size, overlap, k - 1);
      NextStart(k - 1, size, overlap);
    }
  }

  /** Piece `k` is the slice that starts at k * (size - overlap). */
  lemma PieceAt(words: seq<string>, size: nat, overlap: nat, k: nat)
    requires overlap < size && |words| > 0 && k < |Pieces(words, 0, size, overlap)|
    ensures StartOf(k, size, overlap) < |words|
    ensures Pieces(words, 0, size, overlap)[k] == words[StartOf(k, size, overlap)..EndOf(words, k, size, overlap)]
  {
    PieceFrom(words, 0, size, overlap, k);
  }

  lemma GlueStep(words: seq<string>, from: nat, size: nat, overlap: nat)
    requires overlap < size && from + overlap <= |words|
    ensures var end := Min(from + size, |words|);
            words[..from + overlap] + words[from..end][overlap..] == words[..end]
  {
    var end := Min(from + size, |words|);
    assert words[from..end][overlap..] == words[from + overlap..end];
  }

  lemma GlueSnoc(ps: seq<seq<string>>, overlap: nat, n: nat)
    requires 2 <= n <= |ps| && forall k | 1 <= k < |ps| :: overlap <= |ps[k]|
    ensures Glue(ps[..n], overlap) == Glue(ps[..n - 1], overlap) + ps[n - 1][overlap..]
  {
    assert ps[..n][..n - 1] == ps[..n - 1];
  }

  /** A piece that is not the last ends where the overlap of the next one ends. */
  lemma PiecesMeet(words: seq<string>, size: nat, overlap: nat, k: nat)
    requires overlap < size && |words| > 0 && k + 1 < |Pieces(words, 0, size, overlap)|
    ensures EndOf(words, k, size, overlap) == StartOf(k + 1, size, overlap) + overlap <= |words|
  {
    PieceSizes(words, 0, size, overlap);
    PieceAt(words, size, overlap, k);
    PieceAt(words, size, overlap, k + 1);
    NextStart(k, size, overlap);
  }

  /** Gluing the first `n` pieces gives the words up to the end of piece n - 1. */
  lemma {:induction false} GluePrefix(words: seq<string>, ps: seq<seq<string>>, size: nat, overlap: nat, n: nat)
    requires overlap < size && |words| > 0 && ps == Pieces(words, 0, size, overlap) && 1 <= n <= |ps|
    requires forall k | 1 <= k < |ps| :: overlap <= |ps[k]|
    ensures Glue(ps[..n], overlap) == words[..EndOf(words, n - 1, size, overlap)]
  {
    PieceAt(words, size, overlap, n - 1);
    if n > 1 {
      GluePrefix(words, ps, size, overlap, n - 1);
      PiecesMeet(words, size, overlap, n - 2);
      GlueSnoc(ps, overlap, n);
      GlueStep(words, StartOf(n - 1, size, overlap), size, overlap);
    }
  }

  /** The pieces rebuild the section: nothing is lost and nothing is invented before filtering. */
  lemma PiecesRebuildSection(words: seq<string>, size: nat, overlap: nat)
    requires overlap < size && |words| > 0
    ensures var ps := Pieces(words, 0, size, overlap);
            (forall k | 1 <= k < |ps| :: overlap <= |ps[k]|) && Glue(ps, overlap) == words
  {
    var ps := Pieces(words, 0, size, overlap);
    PieceSizes(words, 0, size, overlap);
    GluePrefix(words, ps, size, overlap, |ps|);
    assert ps[..|ps|] == ps;
    LastPieceEnds(words, 0, size, overlap);
    assert words[..|words|] == words;
  }

  lemma {:induction false} LastPieceEnds(words: seq<string>, start: nat, size: nat, overlap: nat)
    requires overlap < size && start < |words|
    ensures |Pieces(words, start, size, overlap)| > 0
    ensures start + StartOf(|Pieces(words, start, size, overlap)| - 1, size, overlap) + size >= |words|
    decreases |words| - start
  {
    if start + size < |words| {
      LastPieceEnds(words, start + (size - overlap), size, overlap);
      NextStart(|Pieces(words, start + (size - overlap), size, overlap)| - 1, size, overlap);
    }
  }

  // ---- The filter ----

  lemma PieceWeight(piece: seq<string>)
    ensures LongEnough(piece) <==> Weight(piece) >= MIN_WORDS
  {
    SplitStrip(Join(piece));
    JoinWeight(piece);
  }

  /** What the first entry of a section counts: a heading as many words as it has, possibly none. */
  function HeadWeight(title: string): nat { if title == "General" then 1 else |Split(title)| }

  lemma {:induction false} PlainWeight(words: seq<string>)
    requires forall w | w in words :: |Split(w)| == 1
    ensures Weight(words) == |words|
  {
    if |words| > 0 { PlainWeight(words[1..]); }
  }

  /** Every entry of a section counts one word, a heading in front as many as it has. */
  lemma SectionWordsCount(title: string, text: string, from: nat, until: nat)
    requires from < until <= |SectionWords(title, text)|
    ensures Weight(SectionWords(title, text)[from..until]) ==
            until - from - 1 + if from == 0 then HeadWeight(title) else 1
  {
    var words := SectionWords(title, text);
    SplitGivesWords(text);
    forall k | 1 <= k < |words| ensures |Split(words[k])| == 1 { assert words[k] in Split(text); }
    var slice := words[from..until];
    assert slice[0] == words[from];
    if title == "General" { assert words[from] in Split(text); }
    PlainWeight(slice[1..]);
  }

  /** A piece is kept exactly when it counts eight words. */
  lemma KeptIff(title: string, text: string, size: nat, overlap: nat, k: nat)
    requires overlap < size && |SectionWords(title, text)| > 0
    requires k < |Pieces(SectionWords(title, text), 0, size, overlap)|
    ensures var piece := Pieces(SectionWords(title, text), 0, size, overlap)[k];
            |piece| > 0 &&
            (LongEnough(piece) <==> |piece| - 1 + (if k == 0 then HeadWeight(title) else 1) >= MIN_WORDS)
  {
    var words := SectionWords(title, text);
    var from, until := StartOf(k, size, overlap), EndOf(words, k, size, overlap);
    PieceAt(words, size, overlap, k);
    PieceWeight(words[from..until]);
    SectionWordsCount(title, text, from, until);
    if k > 0 { NextStart(k - 1, size, overlap); }
  }

  /** With an overlap of seven or more, a section loses a piece exactly when its first piece counts fewer than eight
      words: when the whole section does, or when pieces have eight entries and the first is a blank heading. */
  lemma FilterDropsNothing(title: string, text: string, size: nat, overlap: nat)
    requires 7 <= overlap < size && |SectionWords(title, text)| > 0
    ensures var words := SectionWords(title, text);
            var ps := Pieces(words, 0, size, overlap);
            (forall k | 0 <= k < |ps| :: LongEnough(ps[k])) <==>
            Min(size, |words|) - 1 + HeadWeight(title) >= MIN_WORDS
  {
    var words := SectionWords(title, text);
    var ps := Pieces(words, 0, size, overlap);
    PieceSizes(words, 0, size, overlap);
    KeptIff(title, text, size, overlap, 0);
    forall k | 1 <= k < |ps| ensures LongEnough(ps[k]) { KeptIff(title, text, size, overlap, k); }
  }

  /** Whatever the overlap, only the last piece of a section can be too short to keep, and a first one of eight entries
      with a blank heading. */
  lemma OnlyTheLastPieceCanDrop(title: string, text: string, size: nat, overlap: nat, k: nat)
    requires overlap < size && MIN_WORDS <= size && |SectionWords(title, text)| > 0
    requires k < |Pieces(SectionWords(title, text), 0, size, overlap)| - 1
    ensures LongEnough(Pieces(SectionWords(title, text), 0, size, overlap)[k]) <==>
            k > 0 || size > MIN_WORDS || HeadWeight(title) > 0
  {
    PieceSizes(SectionWords(title, text), 0, size, overlap);
    KeptIff(title, text, size, overlap, k);
  }

  /** Dropping the last piece loses fewer than 8 - overlap words: the pieces before it hold everything else. */
  lemma DroppedPieceLosesLittle(title: string, text: string, size: nat, overlap: nat)
    requires overlap < size && |SectionWords(title, text)| > 0
    requires var ps := Pieces(SectionWords(title, text), 0, size, overlap);
             |ps| > 1 && !LongEnough(ps[|ps| - 1])
    ensures var words := SectionWords(title, text);
            var ps := Pieces(words, 0, size, overlap);
            var held := EndOf(words, |ps| - 2, size, overlap);
            held <= |words| < held + MIN_WORDS - overlap &&
            (forall k | 1 <= k < |ps| - 1 :: overlap <= |ps[k]|) && Glue(ps[..|ps| - 1], overlap) == words[..held]
  {
    var words := SectionWords(title, text);
    var ps := Pieces(words, 0, size, overlap);
    var n := |ps| - 1;
    PieceSizes(words, 0, size, overlap);
    KeptIff(title, text, size, overlap, n);
    PieceAt(words, size, overlap, n);
    PiecesMeet(words, size, overlap, n - 1);
    LastPieceEnds(words, 0, size, overlap);
    GluePrefix(words, ps, size, overlap, n);
  }

  // ---- The words of the chunks ----

  /** The slices stop with the first that reaches the end of the section. */
  lemma SlicesStop(words: seq<string>, size: nat, overlap: nat)
    requires overlap < size && |words| > 0
    ensures var n := |Pieces(words, 0, size, overlap)| - 1;
            n >= 0 && StartOf(n, size, overlap) + size >= |words| &&
            forall k: nat | k < n :: StartOf(k, size, overlap) + size < |words|
  {
    var ps := Pieces(words, 0, size, overlap);
    PieceSizes(words, 0, size, overlap);
    LastPieceEnds(words, 0, size, overlap);
    forall k: nat | k < |ps| - 1 ensures StartOf(k, size, overlap) + size < |words| {
      PieceAt(words, size, overlap, k + 1);
      NextStart(k, size, overlap);
      assert overlap < |ps[k + 1]|;
    }
  }

  function WordsOf(chunks: seq<string>): seq<seq<string>> {
    seq(|chunks|, k requires 0 <= k < |chunks| => Split(chunks[k]))
  }

  /** All words of a section: those of its heading, if it has one of its own, and those of its text. */
  function AllWords(title: string, text: string): seq<string> {
    (if title != "General" then Split(title) else []) + Split(text)
  }

  lemma {:induction false} AllKept(ps: seq<seq<string>>)
    requires forall k | 0 <= k < |ps| :: LongEnough(ps[k])
    ensures |Kept(ps)| == |ps| && forall k | 0 <= k < |ps| :: Kept(ps)[k] == TextOf(ps[k])
  {
    if |ps| > 0 {
      var n := |ps| - 1;
      AllKept(ps[..n]);
      KeptSnoc(ps[..n], ps[n]);
      assert ps == ps[..n] + [ps[n]];
      forall k | 0 <= k < n ensures Kept(ps[..n])[k] == TextOf(ps[k]) { assert ps[..n][k] == ps[k]; }
    }
  }

  /** The words of a slice: a heading in front counts the words it has. */
  lemma SliceWords(title: string, text: string, from: nat, until: nat)
    requires from < until <= |SectionWords(title, text)|
    ensures var slice := SectionWords(title, text)[from..until];
            Split(TextOf(slice)) ==
            if from == 0 && title != "General" then Split(title) + slice[1..] else slice
  {
    var words := SectionWords(title, text);
    var slice := words[from..until];
    SplitStrip(Join(slice));
    SplitGivesWords(text);
    forall k | 1 <= k < |words| ensures Split(words[k]) == [words[k]] { assert words[k] in Split(text); }
    if from == 0 && title != "General" {
      forall w | w in slice[1..] ensures Split(w) == [w] {
        var k :| 0 <= k < |slice[1..]| && slice[1..][k] == w;
        assert words[k + 1] == w;
      }
      SplitOfJoined(slice[1..]);
      assert slice == [title] + slice[1..];
      if |slice| > 1 { SplitOfLonger(title, slice[1..]); }
    } else {
      forall w | w in slice ensures Split(w) == [w] {
        var k :| 0 <= k < |slice| && slice[k] == w;
        assert words[from + k] == w;
        if title == "General" { assert w in Split(text); }
      }
      SplitOfJoined(slice);
    }
  }

  /** Replacing the first entry of the first piece replaces the first entry of what is glued. */
  lemma {:induction false} GlueHead(ps: seq<seq<string>>, others: seq<seq<string>>, head: seq<string>, overlap: nat)
    requires |ps| == |others| > 0 && |ps[0]| > 0 && others[0] == head + ps[0][1..]
    requires forall k | 1 <= k < |ps| :: others[k] == ps[k] && overlap <= |ps[k]|
    ensures |Glue(ps, overlap)| > 0 && Glue(others, overlap) == head + Glue(ps, overlap)[1..]
  {
    var n := |ps| - 1;
    if n > 0 {
      GlueHead(ps[..n], others[..n], head, overlap);
      var front := Glue(ps[..n], overlap);
      assert (front + ps[n][overlap..])[1..] == front[1..] + ps[n][overlap..];
    }
  }

  /** The words of slice `k`, a heading in front counting the words it has. */
  function SliceText(title: string, slice: seq<string>, k: nat): seq<string>
    requires |slice| > 0
  {
    if k == 0 && title != "General" then Split(title) + slice[1..] else slice
  }

  lemma SliceTextAt(title: string, text: string, from: nat, until: nat, k: nat)
    requires from < until <= |SectionWords(title, text)| && (k == 0 <==> from == 0)
    ensures var slice := SectionWords(title, text)[from..until];
            Split(TextOf(slice)) == SliceText(title, slice, k)
  {
    SliceWords(title, text, from, until);
  }

  lemma PieceBounds(words: seq<string>, size: nat, overlap: nat, k: nat)
    requires overlap < size && |words| > 0 && k < |Pieces(words, 0, size, overlap)|
    ensures var from, until := StartOf(k, size, overlap), EndOf(words, k, size, overlap);
            from < until <= |words| && (k == 0 <==> from == 0) &&
            Pieces(words, 0, size, overlap)[k] == words[from..until]
  {
    PieceAt(words, size, overlap, k);
    if k > 0 { NextStart(k - 1, size, overlap); }
  }

  lemma PieceWords(title: string, text: string, size: nat, overlap: nat, k: nat)
    requires overlap < size && |SectionWords(title, text)| > 0
    requires k < |Pieces(SectionWords(title, text), 0, size, overlap)|
    ensures var slice := Pieces(SectionWords(title, text), 0, size, overlap)[k];
            |slice| > 0 && Split(TextOf(slice)) == SliceText(title, slice, k)
  {
    PieceBounds(SectionWords(title, text), size, overlap, k);
    SliceTextAt(title, text, StartOf(k, size, overlap), EndOf(SectionWords(title, text), k, size, overlap), k);
  }

  lemma Rejoined(head: seq<string>, words: seq<string>, end: nat)
    requires 0 < end <= |words|
    ensures head + words[..end][1..] + words[end..] == head + words[1..]
  {
    assert words[..end][1..] + words[end..] == words[1..];
  }

  /** Gluing slices that make up a section's entries up to `end`, heading replaced by its words. */
  lemma GluedWords(title: string, words: seq<string>, ps: seq<seq<string>>, others: seq<seq<string>>, end: nat,
                   overlap: nat)
    requires |ps| == |others| > 0 && |ps[0]| > 0 && 0 < end <= |words|
    requires forall k | 1 <= k < |ps| :: overlap <= |ps[k]|
    requires forall k | 0 <= k < |ps| :: |ps[k]| > 0 && others[k] == SliceText(title, ps[k], k)
    requires forall k | 1 <= k < |others| :: overlap <= |others[k]|
    requires Glue(ps, overlap) == words[..end]
    ensures Glue(others, overlap) + words[end..] ==
            if title != "General" then Split(title) + words[1..] else words
  {
    if title != "General" {
      GlueHead(ps, others, Split(title), overlap);
      Rejoined(Split(title), words, end);
    } else {
      assert others == ps;
      assert words[..end] + words[end..] == words;
    }
  }

  lemma SectionIsAllWords(title: string, text: string)
    requires |SectionWords(title, text)| > 0
    ensures AllWords(title, text) ==
            if title != "General" then Split(title) + SectionWords(title, text)[1..] else SectionWords(title, text)
  {
    assert ([title] + Split(text))[1..] == Split(text);
  }

  /** Each of the first `n` chunks splits into the words of its slice. */
  lemma KeptWords(title: string, text: string, size: nat, overlap: nat, n: nat)
    requires overlap < size && |SectionWords(title, text)| > 0
    requires 1 <= n <= |Pieces(SectionWords(title, text), 0, size, overlap)|
    requires forall k | 0 <= k < n :: LongEnough(Pieces(SectionWords(title, text), 0, size, overlap)[k])
    ensures var ps := Pieces(SectionWords(title, text), 0, size, overlap)[..n];
            |Kept(ps)| == n &&
            forall k | 0 <= k < n :: |ps[k]| > 0 && WordsOf(Kept(ps))[k] == SliceText(title, ps[k], k)
  {
    var ps := Pieces(SectionWords(title, text), 0, size, overlap)[..n];
    AllKept(ps);
    forall k: nat | k < n ensures |ps[k]| > 0 && WordsOf(Kept(ps))[k] == SliceText(title, ps[k], k) {
      PieceWords(title, text, size, overlap, k);
    }
  }

  /** The kept chunks of a section's first `n` slices, word by word. */
  lemma GluedChunks(title: string, text: string, size: nat, overlap: nat, n: nat)
    requires overlap < size && |SectionWords(title, text)| > 0
    requires 1 <= n <= |Pieces(SectionWords(title, text), 0, size, overlap)|
    requires forall k | 0 <= k < n :: LongEnough(Pieces(SectionWords(title, text), 0, size, overlap)[k])
    ensures var words := SectionWords(title, text);
            var chunks := Kept(Pieces(words, 0, size, overlap)[..n]);
            |chunks| == n && (forall k | 1 <= k < n :: overlap <= |Split(chunks[k])|) &&
            Glue(WordsOf(chunks), overlap) + words[EndOf(words, n - 1, size, overlap)..] == AllWords(title, text)
  {
    var words := SectionWords(title, text);
    var ps := Pieces(words, 0, size, overlap)[..n];
    var others := WordsOf(Kept(ps));
    PieceSizes(words, 0, size, overlap);
    KeptWords(title, text, size, overlap, n);
    forall k | 1 <= k < n ensures others[k] == Split(Kept(ps)[k]) && overlap <= |others[k]| {
      assert others[k] == SliceText(title, ps[k], k);
    }
    GluePrefix(words, Pieces(words, 0, size, overlap), size, overlap, n);
    PieceAt(words, size, overlap, n - 1);
    GluedWords(title, words, ps, others, EndOf(words, n - 1, size, overlap), overlap);
    SectionIsAllWords(title, text);
  }

  /** The chunks of a section's first `n` slices hold all but its last `lost` words. */
  ghost predicate Holds(chunks: seq<string>, all: seq<string>, overlap: nat, lost: nat) {
    (forall k | 1 <= k < |chunks| :: overlap <= |Split(chunks[k])|) &&
    Glue(WordsOf(chunks), overlap) <= all && |all| == |Glue(WordsOf(chunks), overlap)| + lost
  }

  lemma FirstSlicesHold(title: string, text: string, size: nat, overlap: nat, n: nat) returns (lost: nat)
    requires overlap < size && |SectionWords(title, text)| > 0
    requires 1 <= n <= |Pieces(SectionWords(title, text), 0, size, overlap)|
    requires forall k | 0 <= k < n :: LongEnough(Pieces(SectionWords(title, text), 0, size, overlap)[k])
    ensures lost == |SectionWords(title, text)| - EndOf(SectionWords(title, text), n - 1, size, overlap)
    ensures Holds(Kept(Pieces(SectionWords(title, text), 0, size, overlap)[..n]), AllWords(title, text), overlap, lost)
    ensures |Kept(Pieces(SectionWords(title, text), 0, size, overlap)[..n])| == n
  {
    var words := SectionWords(title, text);
    PieceAt(words, size, overlap, n - 1);
    lost := |words| - EndOf(words, n - 1, size, overlap);
    GluedChunks(title, text, size, overlap, n);
  }

  /** When the first slice counts eight words, only the last one can count fewer, and only with an overlap below 7. */
  lemma AllButLastLong(title: string, text: string, size: nat, overlap: nat)
    requires overlap < size && MIN_WORDS <= size && |SectionWords(title, text)| > 0
    requires Min(size, |SectionWords(title, text)|) - 1 + HeadWeight(title) >= MIN_WORDS
    ensures var ps := Pieces(SectionWords(title, text), 0, size, overlap);
            |ps| > 0 && LongEnough(ps[0]) && (forall k | 0 <= k < |ps| - 1 :: LongEnough(ps[k])) &&
            (overlap >= 7 ==> LongEnough(ps[|ps| - 1]))
  {
    var ps := Pieces(SectionWords(title, text), 0, size, overlap);
    PieceSizes(SectionWords(title, text), 0, size, overlap);
    forall k: nat | k < |ps| ensures k == 0 || k < |ps| - 1 || overlap >= 7 ==> LongEnough(ps[k]) {
      KeptIff(title, text, size, overlap, k);
    }
  }

  lemma LastSliceEnds(words: seq<string>, size: nat, overlap: nat)
    requires overlap < size && |words| > 0
    ensures |Pieces(words, 0, size, overlap)| > 0
    ensures EndOf(words, |Pieces(words, 0, size, overlap)| - 1, size, overlap) == |words|
  {
    SlicesStop(words, size, overlap);
  }

  lemma WholeSectionHeld(title: string, text: string, size: nat, overlap: nat)
    requires overlap < size && |SectionWords(title, text)| > 0
    requires forall k | 0 <= k < |Pieces(SectionWords(title, text), 0, size, overlap)| ::
               LongEnough(Pieces(SectionWords(title, text), 0, size, overlap)[k])
    ensures var slices := Pieces(SectionWords(title, text), 0, size, overlap);
            |Kept(slices)| == |slices| && Holds(Kept(slices), AllWords(title, text), overlap, 0)
  {
    var n := |Pieces(SectionWords(title, text), 0, size, overlap)|;
    LastSliceEnds(SectionWords(title, text), size, overlap);
    var lost := FirstSlicesHold(title, text, size, overlap, n);
    assert Pieces(SectionWords(title, text), 0, size, overlap)[..n] ==
           Pieces(SectionWords(title, text), 0, size, overlap);
  }

  lemma DroppedSlice(front: seq<seq<string>>, piece: seq<string>)
    requires !LongEnough(piece)
    ensures Kept(front + [piece]) == Kept(front)
  {
    KeptSnoc(front, piece);
    assert KeptOne(piece) == [];
  }

  lemma AllButLastHeld(title: string, text: string, size: nat, overlap: nat) returns (lost: nat)
    requires overlap < size && |SectionWords(title, text)| > 0
    requires var ps := Pieces(SectionWords(title, text), 0, size, overlap);
             |ps| > 1 && !LongEnough(ps[|ps| - 1]) && forall k | 0 <= k < |ps| - 1 :: LongEnough(ps[k])
    ensures Holds(Kept(Pieces(SectionWords(title, text), 0, size, overlap)), AllWords(title, text), overlap, lost)
    ensures lost < MIN_WORDS - overlap
  {
    var ps := Pieces(SectionWords(title, text), 0, size, overlap);
    lost := FirstSlicesHold(title, text, size, overlap, |ps| - 1);
    DroppedSlice(ps[..|ps| - 1], ps[|ps| - 1]);
    assert ps == ps[..|ps| - 1] + [ps[|ps| - 1]];
    DroppedPieceLosesLittle(title, text, size, overlap);
  }

  /** What the chunks of a section hold. Unless its first slice counts fewer than eight words, the words of the chunks,
      each later one without its overlap, are the section's words from the first on; at most the last 7 - overlap are
      missing, so with an overlap of seven or more there is a chunk for every slice and nothing is missing. */
  lemma ChunksHoldSection(title: string, text: string, size: nat, overlap: nat) returns (lost: nat)
    requires overlap < size && MIN_WORDS <= size && |SectionWords(title, text)| > 0
    requires Min(size, |SectionWords(title, text)|) - 1 + HeadWeight(title) >= MIN_WORDS
    ensures var slices := Pieces(SectionWords(title, text), 0, size, overlap);
            Holds(Kept(slices), AllWords(title, text), overlap, lost) && lost <= Max(0, 7 - overlap) &&
            (overlap >= 7 ==> |Kept(slices)| == |slices|)
  {
    var ps := Pieces(SectionWords(title, text), 0, size, overlap);
    AllButLastLong(title, text, size, overlap);
    if LongEnough(ps[|ps| - 1]) {
      WholeSectionHeld(title, text, size, overlap);
      lost := 0;
    } else {
      lost := AllButLastHeld(title, text, size, overlap);
    }
  }
}
