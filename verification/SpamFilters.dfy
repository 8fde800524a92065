/** Training decisions of SpamFilter.cc. How a message scores is left open. */
module SpamFilters {
  import opened WordCounts
  import opened Stores
  import opened CacheViews
  import opened CachedStores
  import opened Ledgers
  import opened FrequencyDBs

  const MIN_TRAINING_SET := 1500
  const MAX_SINGLE_MESSAGE_CLASSIFY := 25

  datatype ScoreMode = ScoreNormal | ScoreOriginal | ScoreAlt1

  datatype Score = Score(value: real, mode: ScoreMode, isSpam: bool) {

    /** How far the score is from certainty of a class. */
    function Doubt(shouldBeSpam: bool): real {
      if shouldBeSpam then 1.0 - value else value
    }

    /** The doubt that a mode allows. */
    function AllowedDoubt(): real {
      if mode.ScoreAlt1? then 15.0 / 100.0 else 5.0 / 1000.0
    }

    predicate IsConfident(shouldBeSpam: bool) {
      if mode.ScoreAlt1? then (if shouldBeSpam then value >= 0.85 else value <= 0.15)
      else if shouldBeSpam then value >= 0.995 else value <= 0.005
    }
  }

  /** The copies with which training in one class starts. */
  ghost function StartCopies(ledger: Ledger, digest: string, isSpam: bool): nat {
    if digest in ledger && ledger[digest].isSpam == isSpam then ledger[digest].copies else 1
  }

  /** The message is filed under isSpam alone, with the copies it already had there or up to the
      limit, and no other message is affected. */
  ghost predicate Classified(before: Ledger, after: Ledger, digest: string, isSpam: bool) {
    && digest in after
    && after == before[digest := after[digest]]
    && after[digest].isSpam == isSpam
    && StartCopies(before, digest, isSpam) <= after[digest].copies
    && (after[digest].copies <= 25
        || after[digest].copies == StartCopies(before, digest, isSpam))
  }

  lemma ClassifiedFirst(before: Ledger, after: Ledger, digest: string, isSpam: bool)
    requires digest in after && after == before[digest := after[digest]]
    requires after[digest] ==
      if digest !in before || before[digest].isSpam != isSpam then Filing(isSpam, 1) else before[digest]
    ensures Classified(before, after, digest, isSpam)
  {
  }

  lemma ClassifiedAgain(before: Ledger, between: Ledger, after: Ledger, digest: string, isSpam: bool)
    requires Classified(before, between, digest, isSpam) && between[digest].copies < MAX_SINGLE_MESSAGE_CLASSIFY
    requires after == between[digest := Filing(isSpam, between[digest].copies + 1)]
    ensures Classified(before, after, digest, isSpam)
  {
  }

  class SpamFilter {
    const db: FrequencyDB

    constructor (db: FrequencyDB)
      ensures this.db == db
    {
      this.db := db;
    }

    /** Looks every term up and comes to some score. */
    method ScoreMessage(msg: Message, mode: ScoreMode) returns (score: Score)
      requires db.Filed()
      modifies db.db.cache
      ensures db.Filed() && db.db.Private() == old(db.db.Private()) && score.mode == mode
    {
      hide Effective, Coherent, Backed, CachedStore.Valid;
      var goodMessages, spamMessages := db.GetWordCounts(COUNT_WORD);
      for i := 0 to |msg.tokens|
        invariant db.Filed() && db.db.Private() == old(db.db.Private())
      {
        var good, spam := db.GetWordCounts(msg.tokens[i].word);
      }
      var value: real := *;
      var isSpam: bool := *;
      score := Score(value, mode, isSpam);
    }

    /** Files a message under one class, taking it out of the other class first. */
    method EnsureMessage(msg: Message, isSpam: bool, forceUpdate: bool)
      requires db.Filed() && Ordinary(msg) && db.book(msg.digest) == msg.tokens
      modifies db`ledger, db`clamps, db.db.cache, db.db.db.privateDB
      ensures db.Filed()
      ensures old(db.Valid()) ==> db.Valid() && db.clamps == old(db.clamps)
      ensures msg.digest in db.ledger && db.ledger == old(db.ledger)[msg.digest := db.ledger[msg.digest]]
      ensures db.ledger[msg.digest] ==
        if msg.digest !in old(db.ledger) || old(db.ledger)[msg.digest].isSpam != isSpam then Filing(isSpam, 1)
        else if forceUpdate then Filing(isSpam, old(db.ledger)[msg.digest].copies + 1)
        else old(db.ledger)[msg.digest]
    {
      hide Effective, Coherent, Balanced, Backed, CachedStore.Valid;
      var count, filedAsSpam := db.GetMessageCount(msg);
      if count > 0 && filedAsSpam != isSpam {
        db.RemoveMessage(msg);
      }
      db.AddMessage(msg, isSpam, forceUpdate);
    }

    /** Files a message, and counts its terms again until it scores with confidence or the limit
        of copies is reached. */
    method ClassifyMessage(msg: Message, isSpam: bool, mode: ScoreMode) returns (score: Score)
      requires db.Filed() && Ordinary(msg) && db.book(msg.digest) == msg.tokens
      modifies db`ledger, db`clamps, db.db.cache, db.db.db.privateDB
      ensures db.Filed()
      ensures old(db.Valid()) ==> db.Valid() && db.clamps == old(db.clamps)
      ensures Classified(old(db.ledger), db.ledger, msg.digest, isSpam)
      ensures score.Doubt(isSpam) <= score.AllowedDoubt() || db.ledger[msg.digest].copies >= 25
    {
      hide Effective, Coherent, Balanced, Backed, Classified, CachedStore.Valid;
      EnsureMessage(msg, isSpam, false);
      ClassifiedFirst(old(db.ledger), db.ledger, msg.digest, isSpam);
      score := ScoreMessage(msg, mode);
      while !score.IsConfident(isSpam)
        invariant db.Filed()
        invariant old(db.Valid()) ==> db.Valid() && db.clamps == old(db.clamps)
        invariant Classified(old(db.ledger), db.ledger, msg.digest, isSpam)
        invariant msg.digest in db.ledger && db.ledger[msg.digest].isSpam == isSpam
        decreases MAX_SINGLE_MESSAGE_CLASSIFY - db.ledger[msg.digest].copies
      {
        var count, filedAsSpam := db.GetMessageCount(msg);
        if count >= MAX_SINGLE_MESSAGE_CLASSIFY {
          break;
        }
        ghost var before := db.ledger;
        EnsureMessage(msg, isSpam, true);
        ClassifiedAgain(old(db.ledger), before, db.ledger, msg.digest, isSpam);
        score := ScoreMessage(msg, mode);
      }
    }

    /** Classifies a message that was scored wrongly, weakly or from too few messages; otherwise
        does no more than redate its terms, if that is asked for. */
    method TrainOnMessage(msg: Message, score: Score, isSpam: bool, mode: ScoreMode, updateTimestamps: bool)
      requires db.Filed() && Ordinary(msg) && db.book(msg.digest) == msg.tokens
      modifies db`ledger, db`clamps, db.db.cache, db.db.db.privateDB
      ensures db.Filed()
      ensures old(db.Valid()) ==> db.Valid() && db.clamps == old(db.clamps)
      ensures
        var trained, other := Total(old(db.ledger), db.book, Messages, isSpam), Total(old(db.ledger), db.book, Messages, !isSpam);
        var classified := Classified(old(db.ledger), db.ledger, msg.digest, isSpam);
        var left := db.ledger == old(db.ledger) && db.db.Private() ==
          if updateTimestamps then TouchedAll(old(db.db.Private()), map[], db.db.db, msg.tokens, db.today) else old(db.db.Private());
        if trained < 1500 || trained < other || score.isSpam != isSpam
           || (score.mode == ScoreNormal && score.Doubt(isSpam) > score.AllowedDoubt())
        then classified
        else if score.mode == ScoreNormal then left
        else left || classified
    {
      hide Effective, Coherent, Balanced, Backed, Count, Total, TouchedAll, Classified, CachedStore.Valid;
      CounterTotal(db.db.Private(), db.ledger, db.book);
      var goodCount, spamCount := db.GetWordCounts(COUNT_WORD);
      var countsUnbalanced, belowMinCount;
      if isSpam {
        countsUnbalanced, belowMinCount := spamCount < goodCount, spamCount < MIN_TRAINING_SET;
      } else {
        countsUnbalanced, belowMinCount := goodCount < spamCount, goodCount < MIN_TRAINING_SET;
      }
      var train := belowMinCount || countsUnbalanced || score.isSpam != isSpam;
      if !train {
        var normal := score;
        if score.mode != ScoreNormal {
          normal := ScoreMessage(msg, ScoreNormal);
        }
        train := !normal.IsConfident(isSpam);
      }
      if train {
        var _ := ClassifyMessage(msg, isSpam, mode);
      } else if updateTimestamps {
        db.TouchMessage(msg);
      }
    }
  }

  datatype Command =
    | Classify(msg: Message, isSpam: bool)
    | Train(msg: Message, score: Score, isSpam: bool, updateTimestamps: bool)
    | Ensure(msg: Message, isSpam: bool, forceUpdate: bool)
    | Remove(msg: Message)
    | Touch(msg: Message)
    | Sweep(limits: seq<Limit>)
    | Flush

  /** A command that is about a message. */
  predicate OnMessage(command: Command) {
    !command.Flush? && !command.Sweep?
  }

  /** In every state a run can reach each filed message is on record with its class and its copies,
      the message counters are right, and no term counts more than the filed messages put in; only
      the messages of the run or those filed before it are filed. Without a sweep the books balance
      and no count was ever clamped. */
  method RunCommands(filter: SpamFilter, commands: seq<Command>, mode: ScoreMode)
    requires filter.db.Filed()
    requires forall i :: 0 <= i < |commands| && OnMessage(commands[i]) ==>
      Ordinary(commands[i].msg) && filter.db.book(commands[i].msg.digest) == commands[i].msg.tokens
    modifies filter.db`ledger, filter.db`clamps, filter.db.db.cache, filter.db.db.db.privateDB
    ensures filter.db.Filed() && OnRecord(filter.db.db.Private(), filter.db.ledger)
    ensures old(filter.db.Valid()) && (forall i :: 0 <= i < |commands| ==> !commands[i].Sweep?) ==>
      filter.db.Valid() && filter.db.clamps == old(filter.db.clamps)
    ensures forall d :: d in filter.db.ledger ==>
      d in old(filter.db.ledger) || exists i :: 0 <= i < |commands| && OnMessage(commands[i]) && commands[i].msg.digest == d
  {
    hide Effective, Coherent, Balanced, Backed, OnRecord, CachedStore.Valid, Spares;
    ghost var exact := filter.db.Valid() && forall i :: 0 <= i < |commands| ==> !commands[i].Sweep?;
    for i := 0 to |commands|
      invariant filter.db.Filed()
      invariant exact ==> filter.db.Valid() && filter.db.clamps == old(filter.db.clamps)
      invariant forall d :: d in filter.db.ledger ==>
        d in old(filter.db.ledger) || exists j :: 0 <= j < i && OnMessage(commands[j]) && commands[j].msg.digest == d
    {
      match commands[i]
      case Classify(msg, isSpam) => var _ := filter.ClassifyMessage(msg, isSpam, mode);
      case Train(msg, score, isSpam, update) => filter.TrainOnMessage(msg, score, isSpam, mode, update);
      case Ensure(msg, isSpam, force) => filter.EnsureMessage(msg, isSpam, force);
      case Remove(msg) => filter.db.RemoveMessage(msg);
      case Touch(msg) => filter.db.TouchMessage(msg);
      case Sweep(limits) =>
        var cleaner := new CleanupManager();
        cleaner.nodes := limits;
        filter.db.SweepOutOldTerms(cleaner);
      case Flush => filter.db.Flush();
    }
    FiledOnRecord(filter.db.db.Private(), filter.db.ledger, filter.db.book);
  }

  lemma CounterTotal(words: Words, ledger: Ledger, book: Book)
    requires Backed(words, ledger, book)
    ensures forall b :: Count(words, COUNT_WORD, b) == Total(ledger, book, Messages, b)
  {
    hide Count, Total;
    DigestAccount("");
    forall b ensures Count(words, COUNT_WORD, b) == Total(ledger, book, Messages, b) {
      assert BackedAt(words, ledger, book, COUNT_WORD, b);
    }
  }
}
