/** The splitting of text into words of SimpleTokenizer.cc: a state machine over single
    characters, and what it means for a whole text. Characters are bytes. */
module WordTokenizers {
  import opened Characters
  import opened CharReaders

  predicate IsHigh(c: char) {
    c as int >= 0x80
  }

  predicate IsLetter(c: char) {
    IsHigh(c) || IsAlnum(c) || c == '%'
  }

  predicate IsSpecial(c: char) {
    c == '.' || c == '-' || c == '+' || c == ',' || c == '_' || c == '$'
  }

  /** The characters that words are made of. */
  predicate IsWordChar(c: char) {
    IsLetter(c) || IsSpecial(c)
  }

  /** The characters that a word can begin with. */
  predicate IsStarter(c: char) {
    c == '$' || IsLetter(c)
  }

  predicate IsNoStarter(c: char) {
    !IsStarter(c)
  }

  function LowerChar(c: char): char {
    if 'A' <= c <= 'Z' then (c as int + 32) as char else c
  }

  function Lower(s: string): (r: string)
    ensures |r| == |s| && forall i :: 0 <= i < |s| ==> r[i] == LowerChar(s[i])
  {
    seq(|s|, i requires 0 <= i < |s| => LowerChar(s[i]))
  }

  /** The text with a replacement, if there is one, for every character that is not ASCII. */
  function Replaced(s: string, replacement: char): (r: string)
    ensures |r| == |s|
    ensures forall i :: 0 <= i < |s| ==> r[i] == if s[i] as int < 128 || replacement as int == 0 then s[i] else replacement
  {
    seq(|s|, i requires 0 <= i < |s| => ReplacedChar(s[i], replacement))
  }

  lemma ReplacedNext(c: char, s: string, replacement: char)
    ensures Replaced("", replacement) == ""
    ensures Replaced([c] + s, replacement) == [ReplacedChar(c, replacement)] + Replaced(s, replacement)
  {
  }

  function ReplacedChar(c: char, replacement: char): char {
    if replacement != '\0' && IsHigh(c) then replacement else c
  }

  // ---- what the words of a text are ----

  /** A run of word characters from its first starter on. */
  function Body(run: string): string {
    run[Span(run, IsNoStarter)..]
  }

  /** A word without the special characters at its end; its first character stays. */
  function Trimmed(body: string): (r: string)
    ensures r <= body && (body != "" ==> r != "")
    ensures |r| > 1 ==> !IsSpecial(r[|r| - 1])
  {
    if |body| > 1 && IsSpecial(body[|body| - 1]) then Trimmed(body[..|body| - 1]) else body
  }

  /** The word of a run of word characters: none when there is no starter in it. */
  function RunWord(run: string): seq<string> {
    if Body(run) == "" then [] else [Lower(Trimmed(Body(run)))]
  }

  /** One word for each longest run of word characters that has one, in order. */
  function Words(s: string): seq<string> {
    if s == "" then []
    else
      var n := Span(s, IsWordChar);
      RunWord(s[..n]) + if n == |s| then [] else Words(s[n + 1..])
  }

  lemma BodyEmpty()
    ensures Body("") == ""
  {
  }

  lemma BodyStep(run: string, c: char)
    ensures Body(run + [c]) ==
      if Body(run) != "" then Body(run) + [c] else if IsStarter(c) then [c] else ""
  {
    hide IsStarter;
    var n := Span(run, IsNoStarter);
    if n < |run| || IsStarter(c) {
      SpanIs(run + [c], IsNoStarter, n);
      if n < |run| {
        assert (run + [c])[n..] == run[n..] + [c];
      }
    } else {
      SpanIs(run + [c], IsNoStarter, n + 1);
    }
  }

  lemma TrimmedStep(body: string, c: char)
    ensures body != "" && IsSpecial(c) ==> Trimmed(body + [c]) == Trimmed(body)
    ensures !IsSpecial(c) ==> Trimmed(body + [c]) == body + [c]
    ensures Trimmed([c]) == [c]
  {
  }

  /** The same in lower case. */
  lemma RunStepLower(run: string, c: char)
    ensures Body(run) == "" && !IsStarter(c) ==> Body(run + [c]) == ""
    ensures Body(run) == "" && IsStarter(c) ==>
      Body(run + [c]) != "" && Lower(Trimmed(Body(run + [c]))) == Lower(Body(run + [c])) == [LowerChar(c)]
    ensures Body(run) != "" ==> Body(run + [c]) != "" && Lower(Body(run + [c])) == Lower(Body(run)) + [LowerChar(c)]
    ensures Body(run) != "" && IsSpecial(c) ==> Lower(Trimmed(Body(run + [c]))) == Lower(Trimmed(Body(run)))
    ensures Body(run) != "" && IsLetter(c) ==> Lower(Trimmed(Body(run + [c]))) == Lower(Body(run)) + [LowerChar(c)]
    ensures IsSpecial(c) ==> LowerChar(c) == c && !IsLetter(c)
    ensures IsLetter(c) ==> IsStarter(c)
  {
    hide Body, Trimmed;
    BodyStep(run, c);
    TrimmedStep(Body(run), c);
    LowerStep(Body(run), c);
    LowerStep("", c);
    assert "" + [c] == [c];
  }

  lemma LowerStep(s: string, c: char)
    ensures Lower(s + [c]) == Lower(s) + [LowerChar(c)]
  {
  }

  ghost predicate AllWordChars(s: string) {
    forall i :: 0 <= i < |s| ==> IsWordChar(s[i])
  }

  /** A run ends at the first character that is not a word character. */
  lemma RunEnds(run: string, c: char, rest: string)
    requires AllWordChars(run) && !IsWordChar(c)
    ensures Words(run + ([c] + rest)) == RunWord(run) + Words(rest)
  {
    var s := run + ([c] + rest);
    SpanIs(s, IsWordChar, |run|);
    assert s[..|run|] == run && s[|run| + 1..] == rest;
  }

  lemma RunIsAll(run: string)
    requires AllWordChars(run)
    ensures Words(run) == RunWord(run)
  {
    SpanIs(run, IsWordChar, |run|);
    assert run[..|run|] == run;
  }

  // ---- laws ----

  /** Small letters, digits, percent signs and characters that are not ASCII; special characters may
      come between them, and a dollar sign first. A word of one character may be a dollar sign. */
  ghost predicate WordShaped(w: string) {
    && w != ""
    && (forall i :: 0 <= i < |w| ==> IsPlain(w[i]) || w[i] in ".-+,_$")
    && w[0] !in ".-+,_"
    && (|w| > 1 ==> w[|w| - 1] !in ".-+,_$")
  }

  predicate IsPlain(c: char) {
    'a' <= c <= 'z' || '0' <= c <= '9' || c == '%' || c as int >= 128
  }

  lemma ShapedParts(w: string)
    requires WordShaped(w)
    ensures w != "" && AllWordChars(w) && IsStarter(w[0]) && Lower(w) == w
    ensures |w| > 1 ==> !IsSpecial(w[|w| - 1])
  {
  }

  lemma WordFound(w: string)
    requires WordShaped(w)
    ensures Words(w) == [w]
  {
    hide WordShaped, IsWordChar, IsStarter, IsSpecial, Lower;
    ShapedParts(w);
    RunIsAll(w);
    SpanIs(w, IsNoStarter, 0);
    assert Body(w) == w;
  }

  lemma LowerShaped(t: string)
    requires t != "" && AllWordChars(t) && IsStarter(t[0]) && (|t| > 1 ==> !IsSpecial(t[|t| - 1]))
    ensures WordShaped(Lower(t))
  {
  }

  lemma PieceChars(run: string, n: nat, t: string)
    requires AllWordChars(run) && n < |run| && t <= run[n..] && t != ""
    ensures AllWordChars(t) && t[0] == run[n]
  {
    hide IsWordChar;
    forall i | 0 <= i < |t| ensures IsWordChar(t[i]) {
      assert t[i] == run[n..][i] == run[n + i];
    }
  }

  lemma RunWordShaped(run: string)
    requires AllWordChars(run)
    ensures forall w <- RunWord(run) :: WordShaped(w)
  {
    hide IsWordChar, IsSpecial, IsStarter, Trimmed, WordShaped, Lower, AllWordChars;
    var n := Span(run, IsNoStarter);
    if n < |run| {
      var t := Trimmed(run[n..]);
      PieceChars(run, n, t);
      LowerShaped(t);
    }
  }

  /** Every word of any text has this shape. */
  lemma {:induction false} WordsShaped(s: string)
    ensures forall w <- Words(s) :: WordShaped(w)
    decreases |s|
  {
    hide IsWordChar, RunWord, WordShaped;
    if s != "" {
      var n := Span(s, IsWordChar);
      RunWordShaped(s[..n]);
      if n < |s| {
        WordsShaped(s[n + 1..]);
      }
    }
  }

  /** So no word is empty, and none holds a capital letter or a NUL. */
  lemma WordsSmall(s: string)
    ensures forall w <- Words(s) :: w != "" && forall i :: 0 <= i < |w| ==> !('A' <= w[i] <= 'Z') && w[i] as int != 0
  {
    hide WordShaped, Words;
    WordsShaped(s);
    forall w | w in Words(s) ensures w != "" && forall i :: 0 <= i < |w| ==> !('A' <= w[i] <= 'Z') && w[i] as int != 0 {
      ShapedSmall(w);
    }
  }

  lemma ShapedSmall(w: string)
    requires WordShaped(w)
    ensures w != "" && forall i :: 0 <= i < |w| ==> !('A' <= w[i] <= 'Z') && w[i] as int != 0
  {
  }

  /** A small letter, and its capital. */
  ghost predicate IsSmallOf(c: char, d: char) {
    exists k: nat :: k < 26 && c == Small(k) && d == Capital(k)
  }

  ghost predicate SameLetter(c: char, d: char) {
    c == d || IsSmallOf(c, d) || IsSmallOf(d, c)
  }

  ghost predicate SameButCase(s: string, t: string) {
    |s| == |t| && forall i :: 0 <= i < |s| ==> SameLetter(s[i], t[i])
  }

  lemma SmallCode(c: char, d: char)
    ensures IsSmallOf(c, d) <==> 'A' <= d <= 'Z' && c == LowerChar(d)
  {
    hide Capital, Small;
    if IsSmallOf(c, d) {
      var k: nat :| k < 26 && c == Small(k) && d == Capital(k);
      LetterCodes(k);
    }
    if 'A' <= d <= 'Z' && c == LowerChar(d) {
      var k := d as int - 'A' as int;
      LetterCodes(k);
      assert c == Small(k) && d == Capital(k);
    }
  }

  lemma SameLower(s: string, t: string)
    requires SameButCase(s, t)
    ensures Lower(s) == Lower(t)
  {
    hide IsSmallOf;
    forall i | 0 <= i < |s| ensures LowerChar(s[i]) == LowerChar(t[i]) {
      assert SameLetter(s[i], t[i]);
      SmallCode(s[i], t[i]);
      SmallCode(t[i], s[i]);
    }
  }

  /** Two texts that differ in the case of letters alone have the same words. */
  lemma CaseBlind(s: string, t: string)
    requires SameButCase(s, t)
    ensures Words(s) == Words(t)
  {
    SameLower(s, t);
    LowerBlind(s, t);
  }

  lemma {:induction false} LowerBlind(s: string, t: string)
    requires Lower(s) == Lower(t)
    ensures Words(s) == Words(t)
    decreases |s|
  {
    hide Words, IsWordChar, RunWord, Lower;
    SameClasses(s, t);
    var n := Span(s, IsWordChar);
    SpanIs(t, IsWordChar, n);
    LowerParts(s, t, n);
    WordsUnfold(s);
    WordsUnfold(t);
    RunBlind(s[..n], t[..n]);
    if n < |s| {
      LowerParts(s, t, n + 1);
      LowerBlind(s[n + 1..], t[n + 1..]);
    }
  }

  lemma WordsUnfold(s: string)
    ensures
      var n := Span(s, IsWordChar);
      Words(s) == RunWord(s[..n]) + if n == |s| then [] else Words(s[n + 1..])
  {
    hide IsWordChar, RunWord;
    if s == "" {
      RunIsAll("");
      assert s[..0] == "";
    }
  }

  lemma LowerParts(s: string, t: string, n: nat)
    requires Lower(s) == Lower(t) && n <= |s|
    ensures |s| == |t| && Lower(s[..n]) == Lower(t[..n]) && Lower(s[n..]) == Lower(t[n..])
  {
    hide LowerChar;
    assert forall i :: 0 <= i < |s| ==> Lower(s)[i] == Lower(t)[i];
  }

  lemma SameClasses(s: string, t: string)
    requires Lower(s) == Lower(t)
    ensures |s| == |t|
    ensures forall i :: 0 <= i < |s| ==> IsWordChar(s[i]) == IsWordChar(t[i])
    ensures forall i :: 0 <= i < |s| ==> IsStarter(s[i]) == IsStarter(t[i]) && IsSpecial(s[i]) == IsSpecial(t[i])
  {
    forall i | 0 <= i < |s|
      ensures IsWordChar(s[i]) == IsWordChar(t[i]) && IsStarter(s[i]) == IsStarter(t[i]) && IsSpecial(s[i]) == IsSpecial(t[i])
    {
      assert Lower(s)[i] == Lower(t)[i];
    }
  }

  lemma RunBlind(s: string, t: string)
    requires Lower(s) == Lower(t)
    ensures RunWord(s) == RunWord(t)
  {
    hide IsStarter, Trimmed, Lower;
    SameClasses(s, t);
    var n := Span(s, IsNoStarter);
    SpanIs(t, IsNoStarter, n);
    LowerParts(s, t, n);
    TrimmedBlind(s[n..], t[n..]);
  }

  lemma {:induction false} TrimmedBlind(s: string, t: string)
    requires Lower(s) == Lower(t)
    ensures Lower(Trimmed(s)) == Lower(Trimmed(t))
  {
    hide IsSpecial, Lower;
    SameClasses(s, t);
    if |s| > 1 && IsSpecial(s[|s| - 1]) {
      LowerParts(s, t, |s| - 1);
      TrimmedBlind(s[..|s| - 1], t[..|s| - 1]);
    }
  }

  /** The word is a piece of the text, with capital letters made small. */
  ghost predicate PieceOf(w: string, s: string) {
    exists k :: 0 <= k <= |s| - |w| && IsCopy(w, s, k)
  }

  ghost predicate IsCopy(w: string, s: string, k: nat)
    requires k + |w| <= |s|
  {
    forall i :: 0 <= i < |w| ==> IsCopied(w[i], s[k..][i])
  }

  ghost predicate IsCopied(c: char, d: char) {
    if 'A' <= d <= 'Z' then IsSmallOf(c, d) else c == d
  }

  /** Every word is found in the text. */
  lemma {:induction false} WordsWithin(s: string)
    ensures forall w <- Words(s) :: PieceOf(w, s)
    decreases |s|
  {
    hide IsWordChar, RunWord, PieceOf;
    if s != "" {
      var n := Span(s, IsWordChar);
      forall w | w in RunWord(s[..n]) ensures PieceOf(w, s) {
        RunWithin(s[..n], w);
        WithinWhole(w, s, 0, n);
      }
      if n < |s| {
        WordsWithin(s[n + 1..]);
        assert s[n + 1..|s|] == s[n + 1..];
        forall w | w in Words(s[n + 1..]) ensures PieceOf(w, s) {
          WithinWhole(w, s, n + 1, |s|);
        }
      }
    }
  }

  lemma WithinWhole(w: string, s: string, from: nat, to: nat)
    requires from <= to <= |s| && PieceOf(w, s[from..to])
    ensures PieceOf(w, s)
  {
    hide IsCopied;
    var k :| 0 <= k <= to - from - |w| && IsCopy(w, s[from..to], k);
    forall i | 0 <= i < |w| ensures IsCopied(w[i], s[from + k..][i]) {
      assert s[from..to][k..][i] == s[from + k..][i];
    }
    assert IsCopy(w, s, from + k);
  }

  lemma RunWithin(run: string, w: string)
    requires w in RunWord(run)
    ensures PieceOf(w, run)
  {
    hide Trimmed, LowerChar, IsCopied;
    var k := Span(run, IsNoStarter);
    var t := Trimmed(run[k..]);
    forall i | 0 <= i < |w| ensures IsCopied(w[i], run[k..][i]) {
      assert t[i] == run[k..][i];
      LowerCopied(t[i]);
    }
    assert IsCopy(w, run, k);
  }

  lemma LowerCopied(c: char)
    ensures IsCopied(LowerChar(c), c)
  {
    SmallCode(LowerChar(c), c);
  }

  /** Words do not reach over a character that is not a word character. */
  lemma {:induction false} WordsSplit(s: string, c: char, t: string)
    requires !IsWordChar(c)
    ensures Words(s + ([c] + t)) == Words(s) + Words(t)
    decreases |s|
  {
    hide Words, RunWord, IsWordChar;
    var n := Span(s, IsWordChar);
    if n == |s| {
      RunEnds(s, c, t);
      RunIsAll(s);
    } else {
      var run, d, rest := s[..n], s[n], s[n + 1..];
      assert s == run + ([d] + rest);
      RunEnds(run, d, rest);
      RunEnds(run, d, rest + ([c] + t));
      Regroup(run, [d], rest, [c] + t);
      WordsSplit(rest, c, t);
    }
  }

  lemma Regroup(a: string, b: string, c: string, d: string)
    ensures a + (b + c) + d == a + (b + (c + d))
  {
  }

  function Spaced(words: seq<string>): string {
    if words == [] then "" else words[0] + (" " + Spaced(words[1..]))
  }

  /** The words of any text, written out with spaces, are found again: the same words, in the same order. */
  lemma WordsFoundAgain(s: string)
    ensures Words(Spaced(Words(s))) == Words(s)
  {
    WordsShaped(s);
    SpacedFound(Words(s));
  }

  lemma {:induction false} SpacedFound(words: seq<string>)
    requires forall w <- words :: WordShaped(w)
    ensures Words(Spaced(words)) == words
  {
    if words != [] {
      WordsSplit(words[0], ' ', Spaced(words[1..]));
      WordFound(words[0]);
      SpacedFound(words[1..]);
    }
  }

  // ---- the state machine ----

  datatype Received = Received(prefix: string, token: string)

  /** A receiver that keeps what it is sent. */
  class TokenReceiver {
    var received: seq<Received>

    constructor ()
      ensures received == []
    {
      received := [];
    }

    method ReceiveToken(prefix: string, token: string)
      modifies this
      ensures received == old(received) + [Received(prefix, token)]
    {
      received := received + [Received(prefix, token)];
    }
  }

  function WithPrefix(prefix: string, words: seq<string>): seq<Received> {
    seq(|words|, i requires 0 <= i < |words| => Received(prefix, words[i]))
  }

  /** What a receiver holds once it has been sent some words. */
  function Sent(before: seq<Received>, prefix: string, words: seq<string>): seq<Received> {
    before + WithPrefix(prefix, words)
  }

  lemma SentNone(before: seq<Received>, prefix: string)
    ensures Sent(before, prefix, []) == before
  {
  }

  lemma SentNext(before: seq<Received>, prefix: string, words: seq<string>, word: string)
    ensures Sent(before, prefix, words + [word]) == Sent(before, prefix, words) + [Received(prefix, word)]
    ensures words + [] == words
  {
  }

  /** What has been received more has the shape of words. */
  ghost predicate MoreShaped(before: seq<Received>, after: seq<Received>) {
    |before| <= |after| && forall i :: |before| <= i < |after| ==> WordShaped(after[i].token)
  }

  lemma SentShaped(before: seq<Received>, prefix: string, text: string)
    ensures MoreShaped(before, Sent(before, prefix, Words(text)))
  {
    hide WordShaped, Words;
    WordsShaped(text);
    var words, after := Words(text), Sent(before, prefix, Words(text));
    forall i | |before| <= i < |after| ensures WordShaped(after[i].token) {
      assert after[i].token == words[i - |before|] && words[i - |before|] in words;
    }
  }

  /** Of all the words of a text some are found, and the rest are those of the run being read and
      what comes after it. */
  ghost predicate Split(all: string, found: seq<string>, run: string, rest: string) {
    AllWordChars(run) && Words(all) == found + Words(run + rest)
  }

  lemma SplitStart(all: string)
    ensures Split(all, [], "", all)
  {
    assert "" + all == all;
  }

  lemma SplitStep(all: string, found: seq<string>, run: string, c: char, rest: string)
    requires Split(all, found, run, [c] + rest)
    ensures IsWordChar(c) ==> Split(all, found, run + [c], rest)
    ensures !IsWordChar(c) ==> Split(all, found + RunWord(run), "", rest)
  {
    hide Words, RunWord, IsWordChar;
    if IsWordChar(c) {
      assert run + ([c] + rest) == (run + [c]) + rest;
    } else {
      RunEnds(run, c, rest);
      assert found + (RunWord(run) + Words(rest)) == (found + RunWord(run)) + Words(rest);
      assert "" + rest == rest;
    }
  }

  lemma SplitEnd(all: string, found: seq<string>, run: string)
    requires Split(all, found, run, "")
    ensures Words(all) == found + RunWord(run)
  {
    hide Words, RunWord;
    RunIsAll(run);
    assert run + "" == run;
  }

  datatype State = START | WAITING | IN_WORD | PENDING

  class SimpleTokenizer {
    const nonAsciiCharReplacement: char
    var state: State
    var token: string
    var pending: string

    constructor (replacement: char)
      ensures nonAsciiCharReplacement == replacement
    {
      nonAsciiCharReplacement := replacement;
      state, token, pending := START, "", "";
    }

    /** The state is that of the run of word characters read so far. */
    ghost predicate Holds(run: string)
      reads this
    {
      && (state == START ==> run == "")
      && (Body(run) == "" <==> state == START || state == WAITING)
      && (Body(run) == "" ==> token == "")
      && (Body(run) != "" ==> token == Lower(Trimmed(Body(run))) && token + pending == Lower(Body(run)))
      && (state == PENDING <==> pending != "")
    }

    lemma HeldWord(run: string)
      requires Holds(run)
      ensures RunWord(run) == if |token| > 0 then [token] else []
    {
    }

    method Reset()
      modifies this
      ensures Holds("")
    {
      state := START;
      token := "";
      pending := "";
    }

    method ProcessStart(c: char)
      requires state == START
      modifies this
      ensures token == (if IsStarter(c) then [LowerChar(c)] else "") && pending == ""
      ensures state == if IsStarter(c) then IN_WORD else WAITING
    {
      token := "";
      pending := "";
      state := WAITING;
      ProcessWaiting(c);
    }

    method ProcessWaiting(c: char)
      requires state == WAITING
      modifies this`state, this`token
      ensures token == if IsStarter(c) then old(token) + [LowerChar(c)] else old(token)
      ensures state == if IsStarter(c) then IN_WORD else WAITING
    {
      if c == '$' || IsLetter(c) {
        token := token + [LowerChar(c)];
        state := IN_WORD;
      }
    }

    method ProcessInWord(c: char) returns (send: bool)
      requires state == IN_WORD
      modifies this
      ensures send == !IsWordChar(c)
      ensures token == if IsLetter(c) then old(token) + [LowerChar(c)] else old(token)
      ensures pending == if IsSpecial(c) then old(pending) + [c] else old(pending)
      ensures state == if IsLetter(c) then IN_WORD else if IsSpecial(c) then PENDING else START
    {
      if IsLetter(c) {
        token := token + [LowerChar(c)];
        return false;
      }
      if IsSpecial(c) {
        state := PENDING;
        pending := pending + [LowerChar(c)];
        return false;
      }
      state := START;
      send := true;
    }

    method ProcessPending(c: char) returns (send: bool)
      requires state == PENDING
      modifies this
      ensures send == !IsWordChar(c)
      ensures token == if IsLetter(c) then old(token) + old(pending) + [LowerChar(c)] else old(token)
      ensures pending == if IsSpecial(c) then old(pending) + [c] else ""
      ensures state == if IsLetter(c) then IN_WORD else if IsSpecial(c) then PENDING else START
    {
      if IsLetter(c) {
        state := IN_WORD;
        token := token + pending;
        token := token + [LowerChar(c)];
        pending := "";
        return false;
      }
      if IsSpecial(c) {
        pending := pending + [LowerChar(c)];
        return false;
      }
      state := START;
      pending := "";
      send := true;
    }

    /** A word character makes the run longer; any other ends it, and its word, if it has one, is
        then to be sent. */
    method ProcessCharForState(c: char, ghost run: string) returns (send: bool)
      requires Holds(run)
      modifies this
      ensures IsWordChar(c) ==> !send && Holds(run + [c])
      ensures !IsWordChar(c) ==> RunWord(run) == if send then [token] else []
      ensures !IsWordChar(c) && send ==> state == START && pending == ""
      ensures !IsWordChar(c) && !send ==> Holds("")
    {
      hide Body, Trimmed, Lower, LowerChar, IsLetter;
      BodyEmpty();
      RunStepLower(run, c);
      match state
      case START =>
        ProcessStart(c);
        send := false;
      case WAITING =>
        ProcessWaiting(c);
        send := false;
      case IN_WORD =>
        send := ProcessInWord(c);
      case PENDING =>
        send := ProcessPending(c);
    }

    method SendToken(receiver: TokenReceiver, prefix: string)
      modifies this`token, receiver
      ensures receiver.received == old(receiver.received) + [Received(prefix, old(token))] && token == ""
      ensures state == START && pending == "" ==> Holds("")
    {
      receiver.ReceiveToken(prefix, token);
      token := "";
    }

    /** The step of the loop: the run read so far goes on, or its word is found and sent. */
    method TakeChar(c: char, receiver: TokenReceiver, prefix: string, ghost before: seq<Received>,
        ghost all: string, ghost found: seq<string>, ghost run: string, ghost rest: string)
      returns (ghost found': seq<string>, ghost run': string)
      requires Holds(run) && Split(all, found, run, [c] + rest)
      requires receiver.received == Sent(before, prefix, found)
      modifies this, receiver
      ensures Holds(run') && Split(all, found', run', rest)
      ensures receiver.received == Sent(before, prefix, found')
    {
      hide Words, Sent, Split, RunWord, Holds, IsWordChar;
      SplitStep(all, found, run, c, rest);
      var send := ProcessCharForState(c, run);
      SentNext(before, prefix, found, token);
      if send {
        SendToken(receiver, prefix);
      }
      found', run' := found + if IsWordChar(c) then [] else RunWord(run), if IsWordChar(c) then run + [c] else "";
      assert IsWordChar(c) ==> found' == found;
    }

    /** The receiver gets exactly the words of what the reader has left, in order. */
    method Tokenize(receiver: TokenReceiver, reader: CharReader, prefix: string)
      requires reader.Valid()
      modifies this, receiver, reader, reader.position
      ensures reader.Valid() && reader.Text() == old(reader.Text())
      ensures receiver.received == Sent(old(receiver.received), prefix,
        Words(Replaced(old(After(reader.Text(), reader.Offset())), nonAsciiCharReplacement)))
      ensures MoreShaped(old(receiver.received), receiver.received)
    {
      hide MoreShaped, WordShaped, Words, Sent, Split, RunWord, Holds, IsWordChar, Replaced, ReplacedChar, Joined, After;
      hide Position.Valid, Position.Offset, CharReader.Valid;
      Reset();
      reader.Started();
      ghost var text, at, before := reader.Text(), reader.Offset(), receiver.received;
      ghost var run, found := "", [];
      AfterNext(text, at);
      var more := reader.Forward();
      ghost var rest := if more then [reader.currentChar] + After(text, reader.Offset()) else "";
      ghost var all := Replaced(After(text, at), nonAsciiCharReplacement);
      SplitStart(all);
      SentNone(before, prefix);
      while more
        invariant reader.Valid() && reader.Text() == text && reader.Offset() >= 0
        invariant more ==> reader.Offset() < |text|
        invariant rest == if more then [reader.currentChar] + After(text, reader.Offset()) else ""
        invariant Holds(run) && Split(all, found, run, Replaced(rest, nonAsciiCharReplacement))
        invariant receiver.received == Sent(before, prefix, found)
        decreases |text| - reader.Offset()
      {
        var c := ReplacedChar(reader.currentChar, nonAsciiCharReplacement);
        rest := After(text, reader.Offset());
        ReplacedNext(reader.currentChar, rest, nonAsciiCharReplacement);
        found, run := TakeChar(c, receiver, prefix, before, all, found, run, Replaced(rest, nonAsciiCharReplacement));
        AfterNext(text, reader.Offset());
        more := reader.Forward();
      }
      HeldWord(run);
      SplitEnd(all, found, run);
      SentNext(before, prefix, found, token);
      if |token| > 0 {
        SendToken(receiver, prefix);
      }
      SentShaped(before, prefix, all);
    }
  }
}
