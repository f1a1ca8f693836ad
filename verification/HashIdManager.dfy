/**
 The duplicate detector object: a hash set, a ring buffer and two counters updated in place.
 */
module HashIdManagers {
  import opened HashDetector

  class HashIdManager {
    const maxHashSize: nat
    var hashMemory: set<Hash>
    var backupArr: array<Hash>
    var backUpIndex: nat
    var counter: nat
    var backupArrCapacity: nat

    /** The ids passed to UpdateHash so far. */
    ghost var history: seq<Hash>

    ghost function State(): Detector
      reads this, backupArr
    {
      Detector(hashMemory, backupArr[..], backUpIndex, counter)
    }

    ghost predicate Valid()
      reads this, backupArr
    {
      && backupArr.Length == backupArrCapacity > 0
      && maxHashSize > 0
      && State() == Feed(backupArrCapacity, maxHashSize, history)
    }

    constructor (maxHashSize: nat)
      requires maxHashSize > 0
      ensures this.maxHashSize == maxHashSize && backupArrCapacity == 0
      ensures hashMemory == {} && backUpIndex == 0 && counter == 0 && history == []
      ensures fresh(backupArr) && State() == Detector({}, [], 0, 0)
    {
      this.maxHashSize := maxHashSize;
      hashMemory := {};
      backupArr := new Hash[0];
      backUpIndex, counter, backupArrCapacity := 0, 0, 0;
      history := [];
    }

    /**
     Sizes the ring. The first call, before any id arrives, starts the detector; a later one keeps
     the set and the counters, and most of the ring.
     */
    method Init(size: nat)
      modifies this`backupArr, this`backupArrCapacity
      ensures backupArrCapacity == size && fresh(backupArr)
      ensures State() == old(State()).(ring := Refilled(old(State()).ring, size))
      ensures history == old(history)
      ensures old(State()) == Detector({}, [], 0, 0) && history == [] && maxHashSize > 0 && size > 0 ==> Valid()
    {
      ghost var ring := backupArr[..];
      backupArrCapacity := size;
      var resized := new Hash[size](_ => 0);
      forall i | 0 <= i < size && i < backupArr.Length {
        resized[i] := backupArr[i];
      }
      forall i | 0 <= i < size / 8 {
        resized[i] := 0;
      }
      if size % 8 != 0 {
        resized[size / 8] := ClearLowBytes(resized[size / 8], size % 8);
      }
      backupArr := resized;
      assert backupArr[..] == Refilled(ring, size) by {
        assert forall i :: 0 <= i < size ==> resized[i] == Refilled(ring, size)[i];
      }
      RefillClearsExactlyWhen(ring, size);
    }

    method UpdateBackUp(hash: Hash)
      requires backupArr.Length == backupArrCapacity > 0
      modifies this`backUpIndex, backupArr
      ensures State() == PushRing(old(State()), hash)
    {
      backUpIndex := (backUpIndex + 1) % backupArrCapacity;
      backupArr[backUpIndex] := hash;
    }

    method CheckBackUp()
      modifies this`counter, this`hashMemory
      ensures State() == CountOne(old(State()), maxHashSize)
    {
      counter := counter + 1;
      if counter < maxHashSize {
        return;
      }
      hashMemory := set x | x in backupArr[..];
      counter := 0;
    }

    /** The body of UpdateHash: insert, and for a new id update the ring and count. */
    method InsertHash(hash: Hash) returns (isNew: bool)
      requires backupArr.Length == backupArrCapacity > 0
      modifies this`hashMemory, this`backUpIndex, this`counter, backupArr
      ensures State() == Update(old(State()), maxHashSize, hash)
      ensures isNew == (hash !in old(hashMemory))
    {
      isNew := hash !in hashMemory;
      hashMemory := hashMemory + {hash};
      if isNew {
        UpdateBackUp(hash);
        CheckBackUp();
      }
    }

    /**
     Answers whether the id is new. The answer is "duplicate" exactly for the ids of the window
     that the accepted history determines.
     */
    method UpdateHash(hash: Hash) returns (isNew: bool)
      requires Valid()
      modifies this, backupArr
      ensures Valid() && history == old(history) + [hash]
      ensures backupArrCapacity == old(backupArrCapacity) && backupArr == old(backupArr)
      ensures var acc := Accepted(backupArrCapacity, maxHashSize, old(history));
              isNew == (hash !in Window(acc, backupArrCapacity, maxHashSize))
      ensures Answers(backupArrCapacity, maxHashSize, history) ==
              Answers(backupArrCapacity, maxHashSize, old(history)) + [isNew]
    {
      FeedSnoc(backupArrCapacity, maxHashSize, history, hash);
      isNew := InsertHash(hash);
      history := history + [hash];
    }
  }
}
