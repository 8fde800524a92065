/** The record kept for a term (WordData.h) and the expiry rules applied to it (CleanupManager.cc). */
module WordCounts {

  const STAMP_MODULUS := 0x1_0000

  /** The reserved name under which the filed messages are counted. */
  const COUNT_WORD := "__COUNT__"

  /** What the reserved names of message digests begin with. */
  const DIGEST_PREFIX := "__MD5__"

  /** A WordData object is copied wherever it goes, so it is a value here. */
  datatype WordData = WordData(good: int, spam: int, flags: nat) {

    function Total(): int {
      good + spam
    }

    predicate NonNegative() {
      good >= 0 && spam >= 0
    }

    predicate HasSameCounts(other: WordData) {
      spam == other.spam && good == other.good
    }

    /** Adds delta to the good count and clamps the result at zero. */
    function AdjustGood(delta: int): (r: WordData)
      ensures r.good >= 0 && r.spam == spam && r.flags == flags
      ensures good + delta >= 0 ==> r.good == good + delta
      ensures good + delta < 0 ==> r.good == 0
    {
      this.(good := if good + delta < 0 then 0 else good + delta)
    }

    /** Adds delta to the spam count and clamps the result at zero. */
    function AdjustSpam(delta: int): (r: WordData)
      ensures r.spam >= 0 && r.good == good && r.flags == flags
      ensures spam + delta >= 0 ==> r.spam == spam + delta
      ensures spam + delta < 0 ==> r.spam == 0
    {
      this.(spam := if spam + delta < 0 then 0 else spam + delta)
    }

    /** The low 16 bits of the flags: the day the record was last changed. */
    function TimeStamp(): nat {
      flags % STAMP_MODULUS
    }

    /** Replaces the day in the low 16 bits and keeps the rest of the flags. */
    function AdjustDate(today: nat): (r: WordData)
      requires today < STAMP_MODULUS
      ensures r.good == good && r.spam == spam
      ensures r.flags % 0x1_0000 == today && r.flags / 0x1_0000 == flags / 0x1_0000
    {
      this.(flags := flags - flags % STAMP_MODULUS + today)
    }

    function Age(today: nat): int {
      today - TimeStamp()
    }
  }

  const ZERO := WordData(0, 0, 0)

  datatype Limit = Limit(junkCount: int, maxAge: int)

  /** Some limit covers a record whose total and age are those of w. */
  ghost predicate Expired(limits: seq<Limit>, w: WordData, today: nat) {
    exists i :: 0 <= i < |limits| && w.Total() <= limits[i].junkCount && w.Age(today) > limits[i].maxAge
  }

  class CleanupManager {
    var nodes: seq<Limit>

    constructor ()
      ensures nodes == []
    {
      nodes := [];
    }

    method AddLimit(junkCount: int, maxAge: int)
      modifies this
      ensures nodes == old(nodes) + [Limit(junkCount, maxAge)]
    {
      nodes := nodes + [Limit(junkCount, maxAge)];
    }

    method ShouldDelete(w: WordData, today: nat) returns (r: bool)
      ensures r <==> Expired(nodes, w, today)
    {
      for i := 0 to |nodes|
        invariant forall j :: 0 <= j < i ==> !(w.Total() <= nodes[j].junkCount && w.Age(today) > nodes[j].maxAge)
      {
        if w.Total() <= nodes[i].junkCount && w.Age(today) > nodes[i].maxAge {
          return true;
        }
      }
      return false;
    }
  }
}
