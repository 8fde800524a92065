/** The joining of words into phrases of PhrasingTokenizer.cc: a shared buffer of characters and
    a window of offsets into it, against the phrases of the whole history of words. */
module PhrasingTokenizers {
  import opened CharReaders
  import opened WordTokenizers

  const SEPARATOR := " "
  const MAX_START: nat := 2048

  /** How many words and how many characters a phrase may have. */
  datatype Limits = Limits(minWords: int, maxWords: int, minChars: int, maxChars: int) {

    /** More words than the most are allowed while there are few enough characters. */
    predicate Allows(words: int, chars: int) {
      && (maxChars <= 0 || chars <= maxChars)
      && (words <= maxWords || (minChars > 0 && chars <= minChars))
    }

    /** How many words the window holds; a negative number never fills up. */
    function WindowSize(): int {
      if minChars <= 0 then maxWords else minChars
    }

    /** The window never drops a word that a phrase still could begin with. */
    predicate WindowSuffices() {
      var fewest := Shortest();
      minChars <= 0 || fewest > maxWords || (maxChars > 0 && 2 * fewest - 1 > maxChars)
    }

    /** The shortest phrase, in words, that is wanted and does not fit in the window. */
    function Shortest(): int {
      if minChars + 1 > minWords then minChars + 1 else minWords
    }
  }

  // ---- what the phrases of a history are ----

  /** The last words of a history, as one phrase. */
  function Phrase(words: seq<string>, count: nat): (r: string)
    requires 1 <= count <= |words|
    ensures |r| >= count - 1
  {
    var first := words[|words| - count];
    if count == 1 then first else first + " " + Phrase(words, count - 1)
  }

  /** A string as it is read from a pointer to its characters. */
  function UpToNul(s: string): (r: string)
    ensures r <= s && '\0' !in r
    ensures |r| < |s| ==> s[|r|] == '\0'
  {
    if s == "" || s[0] == '\0' then "" else [s[0]] + UpToNul(s[1..])
  }

  /** Every phrase that ends the history, has that many words or more and is within the limits. */
  function Phrases(limits: Limits, words: seq<string>, count: nat): seq<string>
    requires count >= 1
    decreases |words| - count
  {
    if count > |words| then []
    else
      var phrase := Phrase(words, count);
      (if count >= limits.minWords && limits.Allows(count, |phrase|) then [UpToNul(phrase)] else [])
      + Phrases(limits, words, count + 1)
  }

  /** The last words of a history; all of them if the number is negative. */
  function Kept(words: seq<string>, size: int): (r: seq<string>)
    ensures size < 0 || |words| <= size ==> r == words
    ensures 0 <= size < |words| ==> |r| == size
  {
    if 0 <= size < |words| then words[|words| - size..] else words
  }

  /** The phrases that follow each word of a history, when only so many words are kept. */
  function PhraseStream(limits: Limits, size: int, words: seq<string>): seq<string> {
    if words == [] then []
    else PhraseStream(limits, size, words[..|words| - 1]) + Phrases(limits, Kept(words, size), 1)
  }

  // ---- lemmas ----

  lemma {:induction false} PhraseLonger(words: seq<string>, count: nat, more: nat)
    requires 1 <= count < more <= |words|
    ensures |Phrase(words, count)| < |Phrase(words, more)|
  {
    if count < more - 1 {
      PhraseLonger(words, count, more - 1);
    }
  }

  /** One phrase over the limits is the end of them: every longer one is over them too. */
  lemma {:induction false} PhrasesEnd(limits: Limits, words: seq<string>, count: nat, from: nat)
    requires 1 <= count <= |words| && !limits.Allows(count, |Phrase(words, count)|) && count <= from
    ensures Phrases(limits, words, from) == []
    decreases |words| - from
  {
    if from <= |words| {
      if count < from {
        PhraseLonger(words, count, from);
      }
      PhrasesEnd(limits, words, count, from + 1);
    }
  }

  lemma {:induction false} PhraseKept(words: seq<string>, size: nat, count: nat)
    requires 1 <= count <= size < |words|
    ensures Phrase(Kept(words, size), count) == Phrase(words, count)
  {
    if count > 1 {
      PhraseKept(words, size, count - 1);
    }
  }

  lemma PhrasesDone(limits: Limits, words: seq<string>, count: nat)
    requires count > |words| && count >= 1
    ensures Phrases(limits, words, count) == []
  {
  }

  lemma PhrasesUnfold(limits: Limits, words: seq<string>, count: nat, before: seq<string>)
    requires 1 <= count <= |words|
    ensures
      var phrase := Phrase(words, count);
      var wanted := count >= limits.minWords && limits.Allows(count, |phrase|);
      before + Phrases(limits, words, count)
        == (if wanted then before + [UpToNul(phrase)] else before) + Phrases(limits, words, count + 1)
  {
    hide Phrase, UpToNul, Limits.Allows;
  }

  /** What a window leaves out are the phrases with more words than it holds. */
  lemma {:induction false} PhrasesKept(limits: Limits, words: seq<string>, size: nat, count: nat)
    requires 1 <= count <= size + 1 && size < |words|
    ensures Phrases(limits, words, count) == Phrases(limits, Kept(words, size), count) + Phrases(limits, words, size + 1)
    decreases size + 1 - count
  {
    hide Phrase, Phrases, Kept;
    var kept := Kept(words, size);
    if count <= size {
      PhraseKept(words, size, count);
      PhrasesUnfold(limits, words, count, []);
      PhrasesUnfold(limits, kept, count, []);
      PhrasesKept(limits, words, size, count + 1);
      assert [] + Phrases(limits, words, count) == Phrases(limits, words, count);
      assert [] + Phrases(limits, kept, count) == Phrases(limits, kept, count);
    } else {
      PhrasesDone(limits, kept, count);
    }
  }

  /** A window of one word less has room for one more. */
  lemma KeptNext(words: seq<string>, size: int, word: string)
    requires size != 0
    ensures Kept(words, size - 1) + [word] == Kept(words + [word], size)
  {
  }

  /** How many words are kept. */
  lemma KeptCount(words: seq<string>, count: nat, size: int)
    ensures size < 0 && count == |words| ==> Kept(words, count) == Kept(words, size)
    ensures size >= 0 && count <= |words| && (count == size || (count == |words| && count < size)) ==>
      Kept(words, count) == Kept(words, size)
    ensures size >= 0 ==> |Kept(words, size)| == if size < |words| then size else |words|
    ensures size < 0 ==> |Kept(words, size)| == |words|
  {
  }

  lemma KeptPopped(words: seq<string>, count: nat)
    requires 1 <= count <= |words|
    ensures |Kept(words, count)| == count && Kept(words, count)[1..] == Kept(words, count - 1)
  {
  }

  ghost predicate NoneEmpty(words: seq<string>) {
    forall i :: 0 <= i < |words| ==> words[i] != ""
  }

  lemma {:induction false} PhraseLength(words: seq<string>, count: nat)
    requires 1 <= count <= |words| && NoneEmpty(words)
    ensures |Phrase(words, count)| >= 2 * count - 1
  {
    if count > 1 {
      PhraseLength(words, count - 1);
    }
  }

  /** With a sufficient window there is no phrase to be left out. */
  lemma {:induction false} NoneLeftOut(limits: Limits, words: seq<string>, count: nat)
    requires NoneEmpty(words) && limits.WindowSuffices() && limits.WindowSize() >= 1 && count > limits.WindowSize()
    ensures Phrases(limits, words, count) == []
    decreases |words| - count
  {
    if count <= |words| {
      PhraseLength(words, count);
      NoneLeftOut(limits, words, count + 1);
    }
  }

  lemma StreamNone(limits: Limits, size: int)
    ensures PhraseStream(limits, size, []) == []
  {
  }

  lemma StreamNext(limits: Limits, size: int, words: seq<string>, word: string)
    ensures PhraseStream(limits, size, words + [word]) ==
      PhraseStream(limits, size, words) + Phrases(limits, Kept(words + [word], size), 1)
  {
  }

  lemma {:induction false} WindowRefines(limits: Limits, words: seq<string>)
    requires NoneEmpty(words) && limits.WindowSuffices() && limits.WindowSize() != 0
    ensures PhraseStream(limits, limits.WindowSize(), words) == PhraseStream(limits, -1, words)
  {
    hide PhraseStream, Phrases, Kept, Limits.WindowSuffices;
    if words == [] {
      StreamNone(limits, limits.WindowSize());
      StreamNone(limits, -1);
    } else {
      var size, n := limits.WindowSize(), |words| - 1;
      WindowRefines(limits, words[..n]);
      LastRefined(limits, words);
      assert words == words[..n] + [words[n]];
      StreamNext(limits, size, words[..n], words[n]);
      StreamNext(limits, -1, words[..n], words[n]);
    }
  }

  lemma LastRefined(limits: Limits, words: seq<string>)
    requires NoneEmpty(words) && limits.WindowSuffices() && limits.WindowSize() != 0
    ensures Phrases(limits, Kept(words, limits.WindowSize()), 1) == Phrases(limits, Kept(words, -1), 1)
  {
    hide Phrases, Kept;
    var size := limits.WindowSize();
    if 1 <= size < |words| {
      PhrasesKept(limits, words, size, 1);
      NoneLeftOut(limits, words, size + 1);
    }
  }

  lemma {:induction false} StreamLonger(limits: Limits, size: nat, words: seq<string>)
    ensures |PhraseStream(limits, size, words)| <= |PhraseStream(limits, -1, words)|
  {
    if words != [] {
      StreamLonger(limits, size, words[..|words| - 1]);
      if size < |words| {
        PhrasesKept(limits, words, size, 1);
      }
    }
  }

  /** Words of one character each make the shortest phrases. */
  function Letters(count: nat): (r: seq<string>)
    ensures |r| == count
  {
    seq(count, i => "a")
  }

  lemma {:induction false} LettersLength(total: nat, count: nat)
    requires 1 <= count <= total
    ensures |Phrase(Letters(total), count)| == 2 * count - 1
  {
    if count > 1 {
      LettersLength(total, count - 1);
    }
  }

  lemma {:induction false} PhraseWithin(limits: Limits, words: seq<string>, count: nat, from: nat)
    requires 1 <= from <= count <= |words| && count >= limits.minWords
    requires limits.Allows(count, |Phrase(words, count)|)
    ensures Phrases(limits, words, from) != []
    decreases count - from
  {
    if from < count {
      PhraseWithin(limits, words, count, from + 1);
    }
  }

  /** Otherwise some history has a phrase that the window loses. */
  lemma WindowLoses(limits: Limits)
    requires !limits.WindowSuffices()
    ensures
      var words := Letters(limits.Shortest());
      PhraseStream(limits, limits.WindowSize(), words) != PhraseStream(limits, -1, words)
  {
    hide Letters, Phrases, Phrase, Kept;
    var count := limits.Shortest();
    var size := limits.WindowSize();
    var words := Letters(count);
    LettersLength(count, count);
    PhraseWithin(limits, words, count, size + 1);
    PhrasesKept(limits, words, size, 1);
    StreamLonger(limits, size, words[..count - 1]);
  }

  /** The window gives the phrases of the whole history, for every history of words that are not
      empty, exactly when it suffices. */
  lemma WindowExact(limits: Limits)
    requires limits.WindowSize() != 0
    ensures limits.WindowSuffices() <==>
      forall words: seq<string> :: NoneEmpty(words) ==>
        PhraseStream(limits, limits.WindowSize(), words) == PhraseStream(limits, -1, words)
  {
    if limits.WindowSuffices() {
      forall words: seq<string> | NoneEmpty(words)
        ensures PhraseStream(limits, limits.WindowSize(), words) == PhraseStream(limits, -1, words)
      {
        WindowRefines(limits, words);
      }
    } else {
      WindowLoses(limits);
      assert NoneEmpty(Letters(limits.Shortest()));
    }
  }

  // ---- the buffer ----

  lemma {:induction false} PhraseNext(words: seq<string>, word: string, count: nat)
    requires 1 <= count <= |words|
    ensures Phrase(words + [word], count + 1) == Phrase(words, count) + " " + word
    ensures Phrase(words + [word], 1) == word
  {
    var all := words + [word];
    var first := words[|words| - count];
    assert all[|all| - (count + 1)] == first && all[|all| - 1] == word;
    if count > 1 {
      PhraseNext(words, word, count - 1);
      var middle := Phrase(words, count - 1);
      calc {
        Phrase(all, count + 1);
        first + " " + Phrase(all, count);
        first + " " + (middle + " " + word);
        { Reassociate(first + " ", middle, " ", word); }
        first + " " + middle + " " + word;
        Phrase(words, count) + " " + word;
      }
    }
  }

  lemma Reassociate(a: string, b: string, c: string, d: string)
    ensures a + (b + c + d) == a + b + c + d
  {
  }

  /** Each offset is where a phrase begins, the last word of the window first. */
  ghost predicate Marks(chars: string, offsets: seq<nat>, window: seq<string>) {
    && |offsets| == |window|
    && forall j :: 0 <= j < |offsets| ==> offsets[j] <= |chars| && chars[offsets[j]..] == Phrase(window, j + 1)
  }

  lemma MarksCount(chars: string, offsets: seq<nat>, window: seq<string>)
    requires Marks(chars, offsets, window)
    ensures |offsets| == |window|
  {
  }

  lemma MarkedPhrase(chars: string, offsets: seq<nat>, window: seq<string>, count: nat)
    requires Marks(chars, offsets, window) && 1 <= count <= |offsets|
    ensures |window| == |offsets| && offsets[count - 1] <= |chars|
    ensures chars[offsets[count - 1]..] == Phrase(window, count)
  {
  }

  /** The oldest word of a window is dropped with its offset. */
  lemma MarksPopped(chars: string, offsets: seq<nat>, window: seq<string>)
    requires Marks(chars, offsets, window) && offsets != []
    ensures Marks(chars, offsets[..|offsets| - 1], window[1..])
  {
    var n := |offsets| - 1;
    forall count | 1 <= count <= n
      ensures Phrase(window[1..], count) == Phrase(window, count)
    {
      PhraseKept(window, n, count);
    }
  }

  /** A new word lengthens every phrase of the window, and begins one. */
  lemma MarksPushed(chars: string, offsets: seq<nat>, window: seq<string>, word: string)
    requires Marks(chars, offsets, window)
    ensures Marks(chars + " " + word, [|chars + " "|] + offsets, window + [word])
  {
    var chars', offsets' := chars + " " + word, [|chars + " "|] + offsets;
    forall j | 0 <= j < |offsets'|
      ensures offsets'[j] <= |chars'| && chars'[offsets'[j]..] == Phrase(window + [word], j + 1)
    {
      if j > 0 {
        PhraseNext(window, word, j);
        assert chars'[offsets'[j]..] == chars[offsets[j - 1]..] + " " + word;
      }
    }
  }

  /** The offsets come later the shorter the phrase. */
  lemma MarksOrdered(chars: string, offsets: seq<nat>, window: seq<string>)
    requires Marks(chars, offsets, window)
    ensures |offsets| == |window|
    ensures forall j :: 0 <= j < |offsets| ==> offsets[|offsets| - 1] <= offsets[j]
    ensures forall j :: 0 <= j < |offsets| ==> |chars| - offsets[j] == |Phrase(window, j + 1)|
  {
    forall j | 0 <= j < |offsets| - 1
      ensures offsets[|offsets| - 1] <= offsets[j]
    {
      PhraseLonger(window, j + 1, |offsets|);
      assert |chars[offsets[j]..]| == |chars| - offsets[j];
    }
  }

  function Shifted(offsets: seq<nat>, start: nat): seq<nat>
    requires forall j :: 0 <= j < |offsets| ==> start <= offsets[j]
  {
    seq(|offsets|, j requires 0 <= j < |offsets| => offsets[j] - start)
  }

  lemma ShiftedLast(offsets: seq<nat>, start: nat)
    requires forall j :: 0 <= j < |offsets| ==> start <= offsets[j]
    ensures |Shifted(offsets, start)| == |offsets|
    ensures offsets != [] ==> Shifted(offsets, start)[|offsets| - 1] == offsets[|offsets| - 1] - start
  {
  }

  lemma MarksShifted(chars: string, offsets: seq<nat>, window: seq<string>, start: nat)
    requires Marks(chars, offsets, window) && start <= |chars|
    requires forall j :: 0 <= j < |offsets| ==> start <= offsets[j]
    ensures Marks(chars[start..], Shifted(offsets, start), window)
  {
  }

  class PhrasingTokenizer {
    const tokenizer: SimpleTokenizer
    const limits: Limits
    const maxWordsInList: int
    var offsets: seq<nat>
    var chars: string

    /** The words whose offsets are held, the oldest first. */
    ghost var window: seq<string>

    /** What has been received since the last clearing. */
    ghost var history: seq<string>

    constructor (tokenizer: SimpleTokenizer, limits: Limits)
      ensures Valid() && this.tokenizer == tokenizer && this.limits == limits && history == []
    {
      this.tokenizer := tokenizer;
      this.limits := limits;
      maxWordsInList := if limits.minChars <= 0 then limits.maxWords else limits.minChars;
      offsets, chars, window, history := [], "", [], [];
    }

    ghost predicate Valid()
      reads this
    {
      && maxWordsInList == limits.WindowSize()
      && window == Kept(history, maxWordsInList)
      && Marks(chars, offsets, window)
      && (|offsets| > 1 ==> offsets[|offsets| - 1] <= 2048)
      && (chars == "" <==> history == [])
    }

    /** The start of the oldest word of the window, when there is one. */
    method CharsStart() returns (start: nat)
      requires Marks(chars, offsets, window)
      ensures start <= |chars| && forall j :: 0 <= j < |offsets| ==> start <= offsets[j]
      ensures start == if offsets == [] then 0 else offsets[|offsets| - 1]
    {
      MarksOrdered(chars, offsets, window);
      if |chars| == 0 || |offsets| == 0 {
        start := 0;
      } else {
        start := offsets[|offsets| - 1];
      }
    }

    method CompactChars()
      requires Marks(chars, offsets, window)
      modifies this`chars, this`offsets
      ensures Marks(chars, offsets, window)
      ensures offsets != [] ==> offsets[|offsets| - 1] <= 2048
      ensures offsets == [] ==> chars == old(chars)
    {
      hide Marks, Shifted;
      var start := CharsStart();
      if start > MAX_START {
        MarksShifted(chars, offsets, window, start);
        ShiftedLast(offsets, start);
        ShiftOffsets(start);
        chars := chars[start..];
      }
    }

    /** The loop over the offsets. */
    method ShiftOffsets(start: nat)
      requires forall j :: 0 <= j < |offsets| ==> start <= offsets[j]
      modifies this`offsets
      ensures offsets == Shifted(old(offsets), start)
    {
      ghost var before := offsets;
      for i := 0 to |offsets|
        invariant |offsets| == |before|
        invariant forall j :: 0 <= j < |offsets| ==> start <= before[j]
        invariant forall j :: 0 <= j < |offsets| ==> offsets[j] == if j < i then before[j] - start else before[j]
      {
        offsets := offsets[i := offsets[i] - start];
      }
    }

    /** Makes room in the window for one more word. The size is compared as an unsigned number. The
        buffer and the offsets are then empty together, as the code asserts when it compacts the
        buffer, except in a window of one word after the first. */
    method PopOldest()
      requires Valid() && limits.WindowSize() != 0
      modifies this`offsets, this`window
      ensures Marks(chars, offsets, window) && window == Kept(history, maxWordsInList - 1)
      ensures |offsets| == |window|
      ensures (chars == "" <==> offsets == []) <==> (history == [] || limits.WindowSize() != 1)
    {
      hide Marks, Kept;
      MarksCount(chars, offsets, window);
      KeptCount(history, |offsets|, maxWordsInList);
      while maxWordsInList >= 0 && |offsets| >= maxWordsInList
        invariant Marks(chars, offsets, window) && |offsets| == |window| <= |history|
        invariant window == Kept(history, |offsets|)
        invariant maxWordsInList < 0 || |history| < maxWordsInList ==> |offsets| == |history|
        invariant 1 <= maxWordsInList <= |history| ==> |offsets| >= maxWordsInList - 1
        decreases |offsets|
      {
        MarksPopped(chars, offsets, window);
        KeptPopped(history, |offsets|);
        offsets := offsets[..|offsets| - 1];
        window := window[1..];
      }
      KeptCount(history, |offsets|, maxWordsInList - 1);
    }

    /** The loop over the offsets, which stops at the first phrase that is over a limit. */
    method SendPhrases(receiver: TokenReceiver, prefix: string)
      requires Marks(chars, offsets, window)
      modifies receiver
      ensures receiver.received == Sent(old(receiver.received), prefix, Phrases(limits, window, 1))
    {
      hide Marks, Phrase, Phrases, Sent;
      MarksOrdered(chars, offsets, window);
      ghost var sent, all := [], Phrases(limits, window, 1);
      SentNone(receiver.received, prefix);
      var numWords := 1;
      while numWords <= |offsets|
        invariant 1 <= numWords <= |offsets| + 1
        invariant receiver.received == Sent(old(receiver.received), prefix, sent)
        invariant all == sent + Phrases(limits, window, numWords)
      {
        MarkedPhrase(chars, offsets, window, numWords);
        PhrasesUnfold(limits, window, numWords, sent);
        var phrase := chars[offsets[numWords - 1]..];
        if limits.maxChars > 0 && |phrase| > limits.maxChars {
          PhrasesEnd(limits, window, numWords, numWords);
          break;
        }
        if numWords > limits.maxWords && (limits.minChars <= 0 || |phrase| > limits.minChars) {
          PhrasesEnd(limits, window, numWords, numWords);
          break;
        }
        if numWords >= limits.minWords {
          SentNext(old(receiver.received), prefix, sent, UpToNul(phrase));
          receiver.ReceiveToken(prefix, UpToNul(phrase));
          sent := sent + [UpToNul(phrase)];
        }
        numWords := numWords + 1;
      }
      if numWords > |offsets| {
        PhrasesDone(limits, window, numWords);
      }
      assert sent + [] == sent;
    }

    /** Every phrase that the kept words make with the new one is sent, the shortest first. What the
        buffer holds beside the window stays bounded, but in a window of one word it never shrinks:
        there is no offset left to compact it by. */
    method ReceiveToken(receiver: TokenReceiver, prefix: string, token: string)
      requires Valid() && limits.WindowSize() != 0
      modifies this, receiver
      ensures Valid() && history == old(history) + [token]
      ensures receiver.received == Sent(old(receiver.received), prefix, Phrases(limits, Kept(history, limits.WindowSize()), 1))
      ensures |old(receiver.received)| <= |receiver.received|
      ensures AllShaped(history) ==>
        forall i :: |old(receiver.received)| <= i < |receiver.received| ==> JoinsLast(history, receiver.received[i].token)
      ensures |window| > 1 ==> |chars| <= 2048 + |Phrase(window, |window|)|
      ensures limits.WindowSize() == 1 ==> |chars| == old(|chars|) + 1 + |token|
    {
      hide Marks, Phrase, Phrases, Kept, Sent, AllShaped, JoinsLast;
      PopOldest();
      CompactChars();
      MarksPushed(chars, offsets, window, token);
      chars := chars + SEPARATOR;
      offsets := [|chars|] + offsets;
      chars := chars + token;
      KeptNext(history, maxWordsInList, token);
      window := window + [token];
      history := history + [token];
      MarksOrdered(chars, offsets, window);
      ghost var before := receiver.received;
      SendPhrases(receiver, prefix);
      SentLonger(before, prefix, Phrases(limits, window, 1));
      if AllShaped(history) {
        SentJoin(before, prefix, limits, history, limits.WindowSize());
      }
    }

    method Clear()
      requires maxWordsInList == limits.WindowSize()
      modifies this
      ensures Valid() && history == []
    {
      chars := "";
      offsets := [];
      window, history := [], [];
    }

    /** The receiver gets the phrases that follow each word of what the reader has left. */
    method Tokenize(receiver: TokenReceiver, reader: CharReader, prefix: string)
      requires maxWordsInList == limits.WindowSize() && limits.WindowSize() != 0
      requires reader.Valid()
      modifies this, tokenizer, receiver, reader, reader.position
      ensures Valid() && reader.Valid() && reader.Text() == old(reader.Text())
      ensures history == Words(Replaced(old(After(reader.Text(), reader.Offset())), tokenizer.nonAsciiCharReplacement))
      ensures receiver.received == Sent(old(receiver.received), prefix, PhraseStream(limits, limits.WindowSize(), history))
      ensures |old(receiver.received)| <= |receiver.received|
      ensures forall i :: |old(receiver.received)| <= i < |receiver.received| ==> JoinsSome(history, receiver.received[i].token)
    {
      hide AllShaped, JoinsLast, JoinsSome, Words, Replaced, After, Sent, PhraseStream, Phrases, Kept, Valid, Position.Valid, CharReader.Valid, Joined;
      Clear();
      reader.Started();
      ghost var before, text := receiver.received, After(reader.Text(), reader.Offset());
      var inner := new TokenReceiver();
      tokenizer.Tokenize(inner, reader, prefix);
      ghost var words := Words(Replaced(text, tokenizer.nonAsciiCharReplacement));
      SentWords(prefix, words);
      SentNone(before, prefix);
      StreamNone(limits, limits.WindowSize());
      for i := 0 to |inner.received|
        invariant Valid() && history == words[..i]
        invariant receiver.received == Sent(before, prefix, PhraseStream(limits, limits.WindowSize(), history))
        modifies this, receiver
      {
        StreamNext(limits, limits.WindowSize(), history, words[i]);
        SentMore(before, prefix, PhraseStream(limits, limits.WindowSize(), history),
          Phrases(limits, Kept(history + [words[i]], limits.WindowSize()), 1));
        assert words[..i + 1] == words[..i] + [words[i]];
        ReceiveToken(receiver, inner.received[i].prefix, inner.received[i].token);
      }
      assert words[..|words|] == words;
      ShapedWords(Replaced(text, tokenizer.nonAsciiCharReplacement));
      SentStream(before, prefix, limits, history, limits.WindowSize());
    }
  }

  // ---- from text to phrases ----

  lemma SentWords(prefix: string, words: seq<string>)
    ensures |Sent([], prefix, words)| == |words|
    ensures forall i :: 0 <= i < |words| ==> Sent([], prefix, words)[i] == Received(prefix, words[i])
  {
  }

  lemma SentLonger(before: seq<Received>, prefix: string, words: seq<string>)
    ensures |before| <= |Sent(before, prefix, words)|
  {
  }

  lemma SentMore(before: seq<Received>, prefix: string, words: seq<string>, more: seq<string>)
    ensures Sent(Sent(before, prefix, words), prefix, more) == Sent(before, prefix, words + more)
  {
  }

  lemma {:induction false} PhraseWhole(words: seq<string>, count: nat)
    requires 1 <= count <= |words| && forall w <- words :: '\0' !in w
    ensures '\0' !in Phrase(words, count) && UpToNul(Phrase(words, count)) == Phrase(words, count)
  {
    assert words[|words| - count] in words;
    if count > 1 {
      PhraseWhole(words, count - 1);
    }
    NoNul(Phrase(words, count));
  }

  lemma {:induction false} NoNul(s: string)
    requires '\0' !in s
    ensures UpToNul(s) == s
  {
    if s != "" {
      NoNul(s[1..]);
    }
  }

  /** A phrase is its words with single spaces between them. */
  lemma {:induction false} PhraseSpaced(words: seq<string>, count: nat)
    requires 1 <= count <= |words|
    ensures Phrase(words, count) + " " == Spaced(words[|words| - count..])
  {
    var last := words[|words| - count..];
    if count == 1 {
      assert last[1..] == [] && Spaced([]) == "";
    } else {
      PhraseSpaced(words, count - 1);
      assert last[1..] == words[|words| - (count - 1)..];
    }
  }

  /** The words of a phrase are the words it was made of. */
  lemma PhraseWords(words: seq<string>, count: nat)
    requires 1 <= count <= |words| && forall w <- words :: WordShaped(w)
    ensures Words(Phrase(words, count)) == words[|words| - count..]
  {
    hide Words, Phrase, Spaced, WordShaped, IsWordChar;
    var phrase, last := Phrase(words, count), words[|words| - count..];
    PhraseSpaced(words, count);
    assert forall w <- last :: w in words;
    SpacedFound(last);
    SpaceEnds();
    WordsSplit(phrase, ' ', "");
    assert phrase + ([' '] + "") == phrase + " ";
  }

  lemma SpaceEnds()
    ensures !IsWordChar(' ') && Words("") == []
  {
  }

  /** The phrase is the last of the words with single spaces between them, and nothing more. */
  ghost predicate JoinsLast(words: seq<string>, phrase: string) {
    exists count :: 1 <= count <= |words| && Joins(words, count, phrase)
  }

  /** So it was when some earlier word was the newest. */
  ghost predicate JoinsSome(words: seq<string>, phrase: string) {
    exists n | 0 <= n <= |words| :: JoinsLast(words[..n], phrase)
  }

  ghost predicate Joins(words: seq<string>, count: nat, phrase: string)
    requires count <= |words|
  {
    phrase + " " == Spaced(words[|words| - count..]) && Words(phrase) == words[|words| - count..]
  }

  ghost predicate AllShaped(words: seq<string>) {
    forall w <- words :: WordShaped(w)
  }

  lemma ShapedWhole(words: seq<string>)
    requires AllShaped(words)
    ensures forall w <- words :: w != "" && '\0' !in w
  {
    hide WordShaped;
    forall w | w in words ensures w != "" && '\0' !in w {
      ShapedNoNul(w);
    }
  }

  lemma PhraseJoins(words: seq<string>, size: int, count: nat)
    requires AllShaped(words) && 1 <= count <= |Kept(words, size)|
    ensures JoinsLast(words, UpToNul(Phrase(Kept(words, size), count)))
  {
    hide Words, Phrase, Spaced, WordShaped, UpToNul;
    if 0 <= size < |words| {
      PhraseKept(words, size, count);
    }
    PhraseSpaced(words, count);
    PhraseWords(words, count);
    ShapedWhole(words);
    PhraseWhole(words, count);
    assert Joins(words, count, Phrase(words, count));
  }

  /** Of those that are sent after the newest word, every one ends with it. */
  lemma {:induction false} PhrasesJoin(limits: Limits, words: seq<string>, size: int, count: nat)
    requires AllShaped(words) && count >= 1
    ensures forall p <- Phrases(limits, Kept(words, size), count) :: JoinsLast(words, p)
    decreases |Kept(words, size)| - count
  {
    hide AllShaped, JoinsLast, Phrase, UpToNul, Kept;
    if count <= |Kept(words, size)| {
      PhraseJoins(words, size, count);
      PhrasesJoin(limits, words, size, count + 1);
    }
  }

  /** Every phrase of a stream is made of words that follow one another, up to one of the history. */
  lemma {:induction false} StreamJoins(limits: Limits, size: int, words: seq<string>)
    requires AllShaped(words)
    ensures forall p <- PhraseStream(limits, size, words) :: JoinsSome(words, p)
  {
    hide JoinsLast, Phrases, Kept, WordShaped;
    if words != [] {
      var before := words[..|words| - 1];
      StreamJoins(limits, size, before);
      PhrasesJoin(limits, words, size, 1);
      assert words[..|words|] == words;
      forall p | p in PhraseStream(limits, size, before) ensures JoinsSome(words, p) {
        var n :| 0 <= n <= |before| && JoinsLast(before[..n], p);
        assert before[..n] == words[..n];
      }
    }
  }

  /** For the words of any text the window gives the phrases of the whole history, when it
      suffices, and no phrase is cut short. */
  lemma TextPhrases(limits: Limits, text: string)
    requires limits.WindowSuffices() && limits.WindowSize() != 0
    ensures PhraseStream(limits, limits.WindowSize(), Words(text)) == PhraseStream(limits, -1, Words(text))
    ensures forall n, count :: 1 <= count <= n <= |Words(text)| ==>
      UpToNul(Phrase(Words(text)[..n], count)) == Phrase(Words(text)[..n], count)
  {
    hide Words, Phrase, UpToNul, PhraseStream;
    var words := Words(text);
    WordsShaped(text);
    assert NoneEmpty(words) && forall w <- words :: '\0' !in w by {
      forall i | 0 <= i < |words|
        ensures words[i] != "" && '\0' !in words[i]
      {
        assert words[i] in words;
        ShapedNoNul(words[i]);
      }
    }
    WindowRefines(limits, words);
    forall n, count | 1 <= count <= n <= |words|
      ensures UpToNul(Phrase(words[..n], count)) == Phrase(words[..n], count)
    {
      assert forall w <- words[..n] :: w in words;
      PhraseWhole(words[..n], count);
    }
  }

  lemma ShapedWords(text: string)
    ensures AllShaped(Words(text))
  {
    WordsShaped(text);
  }

  /** So it is for the phrases that a receiver is sent. */
  lemma SentJoin(before: seq<Received>, prefix: string, limits: Limits, words: seq<string>, size: int)
    requires AllShaped(words)
    ensures
      var after := Sent(before, prefix, Phrases(limits, Kept(words, size), 1));
      |before| <= |after| && forall i :: |before| <= i < |after| ==> JoinsLast(words, after[i].token)
  {
    hide AllShaped, JoinsLast, Phrases, Kept;
    PhrasesJoin(limits, words, size, 1);
  }

  lemma SentStream(before: seq<Received>, prefix: string, limits: Limits, words: seq<string>, size: int)
    requires AllShaped(words)
    ensures
      var after := Sent(before, prefix, PhraseStream(limits, size, words));
      && |before| <= |after|
      && forall i :: |before| <= i < |after| ==> JoinsSome(words, after[i].token)
  {
    hide AllShaped, JoinsSome, PhraseStream;
    StreamJoins(limits, size, words);
    var stream, after := PhraseStream(limits, size, words), Sent(before, prefix, PhraseStream(limits, size, words));
    forall i | |before| <= i < |after| ensures JoinsSome(words, after[i].token) {
      assert after[i].token == stream[i - |before|] && stream[i - |before|] in stream;
    }
  }

  lemma ShapedNoNul(w: string)
    requires WordShaped(w)
    ensures w != "" && '\0' !in w
  {
  }
}
