/** The ledger of filed messages, and the counts it calls for. */
module Ledgers {
  import opened WordCounts
  import opened Stores

  datatype Token = Token(word: string, count: nat)

  datatype Message = Message(digest: string, tokens: seq<Token>)

  /** How a message is filed: its class, and how often its terms have been counted. */
  datatype Filing = Filing(isSpam: bool, copies: nat)

  type Ledger = map<string, Filing>

  /** The terms of each message, by digest. */
  type Book = string -> seq<Token>

  /** What a database record counts. */
  datatype Account = Term(word: string) | Digest(digest: string) | Messages

  function AccountOf(word: string): Account {
    if word == COUNT_WORD then Messages
    else if DIGEST_PREFIX <= word then Digest(word[|DIGEST_PREFIX|..])
    else Term(word)
  }

  predicate Ordinary(msg: Message) {
    forall i :: 0 <= i < |msg.tokens| ==> AccountOf(msg.tokens[i].word).Term?
  }

  function TokenCount(tokens: seq<Token>, word: string): nat {
    if tokens == [] then 0
    else
      var n := |tokens| - 1;
      TokenCount(tokens[..n], word) + if tokens[n].word == word then tokens[n].count else 0
  }

  /** What one filed message adds to an account of class isSpam. */
  function Weight(book: Book, account: Account, isSpam: bool, digest: string, filing: Filing): nat {
    if filing.isSpam != isSpam then 0
    else
      match account
      case Term(w) => filing.copies * TokenCount(book(digest), w)
      case Digest(d) => if d == digest then filing.copies else 0
      case Messages => 1
  }

  /** The sum of the weights of all filed messages. */
  ghost function Total(ledger: Ledger, book: Book, account: Account, isSpam: bool): nat {
    if ledger == map[] then 0
    else
      var d :| d in ledger;
      Weight(book, account, isSpam, d, ledger[d]) + Total(ledger - {d}, book, account, isSpam)
  }

  /** The sum does not depend on the order in which messages are taken out. */
  lemma {:induction false} TotalTakes(ledger: Ledger, book: Book, account: Account, isSpam: bool, d: string)
    requires d in ledger
    ensures Total(ledger, book, account, isSpam) ==
      Weight(book, account, isSpam, d, ledger[d]) + Total(ledger - {d}, book, account, isSpam)
    decreases |ledger|
  {
    var e :| e in ledger && Total(ledger, book, account, isSpam) ==
      Weight(book, account, isSpam, e, ledger[e]) + Total(ledger - {e}, book, account, isSpam);
    if e != d {
      TotalTakes(ledger - {e}, book, account, isSpam, d);
      TotalTakes(ledger - {d}, book, account, isSpam, e);
      assert ledger - {e} - {d} == ledger - {d} - {e};
    }
  }

  /** Filing, refiling or unfiling one message moves each sum by that message's weight alone. */
  lemma TotalMoves(ledger: Ledger, book: Book, account: Account, isSpam: bool, d: string, filing: Filing)
    ensures Total(ledger[d := filing], book, account, isSpam) ==
      Total(ledger - {d}, book, account, isSpam) + Weight(book, account, isSpam, d, filing)
    ensures d in ledger ==>
      Total(ledger, book, account, isSpam) ==
      Total(ledger - {d}, book, account, isSpam) + Weight(book, account, isSpam, d, ledger[d])
    ensures d !in ledger ==> ledger - {d} == ledger
  {
    TotalTakes(ledger[d := filing], book, account, isSpam, d);
    assert ledger[d := filing] - {d} == ledger - {d};
    if d in ledger {
      TotalTakes(ledger, book, account, isSpam, d);
    }
  }

  /** The account of a digest holds the copies of that message in its one class. */
  lemma {:induction false} DigestTotal(ledger: Ledger, book: Book, d: string, isSpam: bool)
    ensures Total(ledger, book, Digest(d), isSpam) ==
      if d in ledger && ledger[d].isSpam == isSpam then ledger[d].copies else 0
    decreases |ledger|
  {
    if e :| e in ledger {
      TotalTakes(ledger, book, Digest(d), isSpam, e);
      var rest := ledger - {e};
      DigestTotal(rest, book, d, isSpam);
      assert d != e ==> (d in rest <==> d in ledger) && (d in rest ==> rest[d] == ledger[d]);
    }
  }

  /** The message counter of a class is the number of digests filed under it. */
  lemma {:induction false} MessagesTotal(ledger: Ledger, book: Book, isSpam: bool)
    ensures Total(ledger, book, Messages, isSpam) == |set d | d in ledger && ledger[d].isSpam == isSpam|
    decreases |ledger|
  {
    var filed := set d | d in ledger && ledger[d].isSpam == isSpam;
    if e :| e in ledger {
      TotalTakes(ledger, book, Messages, isSpam, e);
      var rest := ledger - {e};
      MessagesTotal(rest, book, isSpam);
      assert (set d | d in rest && rest[d].isSpam == isSpam) == filed - {e};
    } else {
      assert ledger == map[] && filed == {};
    }
  }

  /** The count of one class in a record, zero when there is none. */
  function Count(words: Words, word: string, isSpam: bool): int {
    if word !in words then 0 else if isSpam then words[word].spam else words[word].good
  }

  /** The conservation law: every record holds, in each class, the sum its account calls for. */
  ghost predicate Balanced(words: Words, ledger: Ledger, book: Book) {
    && (forall d :: d in ledger ==> ledger[d].copies >= 1)
    && forall w, b :: Count(words, w, b) == Total(ledger, book, AccountOf(w), b)
  }

  ghost predicate BackedAt(words: Words, ledger: Ledger, book: Book, w: string, b: bool) {
    var count, total := Count(words, w, b), Total(ledger, book, AccountOf(w), b);
    if AccountOf(w).Term? then 0 <= count <= total else count == total
  }

  /** What is left of that law once terms have been swept out: the digests and the message counter
      hold what their accounts call for, and no term holds more. */
  ghost predicate Backed(words: Words, ledger: Ledger, book: Book) {
    && (forall d :: d in ledger ==> ledger[d].copies >= 1)
    && forall w, b :: BackedAt(words, ledger, book, w, b)
  }

  lemma BalancedBacked(words: Words, ledger: Ledger, book: Book)
    requires Balanced(words, ledger, book)
    ensures Backed(words, ledger, book)
  {
    hide Count, Total, AccountOf;
  }
}
