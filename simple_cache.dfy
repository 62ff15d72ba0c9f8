/** SimpleCache: a set-associative cache between a CPU side and a memory
    side. Requests from the CPU hit or are forwarded to memory; responses from
    memory are installed and passed back to the CPU. The table of entries is
    updated in place; the three statistics are plain counters and the two
    outgoing calls are recorded in `sent`. */
module SimpleCacheModel {
  import opened Bits
  import opened AddressDecode
  import opened CacheSet

  /** A call the cache makes on a neighbour: sendReq to the memory side or
      sendResp to the CPU side. */
  datatype Message = ReqToMem(addr: Addr, size: int) | RespToCpu(addr: Addr)

  class SimpleCache {
    const size: int
    const blockSize: int
    const associativity: int
    const numEntries: int
    const numSets: int

    /** entries[index][way] */
    var entries: seq<Row>

    var reqsReceived: nat
    var reqsServiced: nat
    var respsReceived: nat

    /** Every message sent so far, oldest first. */
    ghost var sent: seq<Message>

    /** The geometry the decoder relies on, and what every reachable table
        keeps: the right shape, counters of the form 0 or
        associativity - 1 - way, and no tag twice in a set except 0. */
    ghost predicate Valid()
      reads this
    {
      IsPow2(blockSize) && associativity >= 1 && IsPow2(numSets) &&
      numEntries == size / blockSize && numSets == numEntries / associativity &&
      |entries| == numSets &&
      forall s :: 0 <= s < |entries| ==>
        |entries[s]| == associativity && RecencyShape(entries[s]) && UniqueTags(entries[s])
    }

    /** Allocates numSets = (size / blockSize) / associativity sets of
        associativity fresh entries each. */
    constructor (size: int, blockSize: int, associativity: int)
      requires IsPow2(blockSize) && associativity >= 1
      requires IsPow2(size / blockSize / associativity)
      ensures Valid()
      ensures this.size == size && this.blockSize == blockSize && this.associativity == associativity
      ensures numEntries == size / blockSize && numSets == numEntries / associativity
      ensures |entries| == numSets
      ensures forall s :: 0 <= s < numSets ==> entries[s] == ColdRow(associativity)
      ensures reqsReceived == 0 && reqsServiced == 0 && respsReceived == 0 && sent == []
    {
      var entryCount := size / blockSize;
      var setCount := entryCount / associativity;
      var table: seq<Row> := [];
      var i := 0;
      while i < setCount
        invariant 0 <= i <= setCount
        invariant |table| == i
        invariant forall s :: 0 <= s < i ==> table[s] == ColdRow(associativity)
      {
        var vec: Row := [];
        var j := 0;
        while j < associativity
          invariant 0 <= j <= associativity
          invariant vec == ColdRow(j)
        {
          vec := vec + [COLD];
          j := j + 1;
        }
        table := table + [vec];
        i := i + 1;
      }
      this.size := size;
      this.blockSize := blockSize;
      this.associativity := associativity;
      numEntries := entryCount;
      numSets := setCount;
      entries := table;
      reqsReceived, reqsServiced, respsReceived := 0, 0, 0;
      sent := [];
    }

    /** hasLine: scans the ways of set `index` for `tag`. */
    method HasLine(index: nat, tag: int) returns (found: bool)
      requires Valid() && index < numSets
      ensures found <==> exists w :: 0 <= w < associativity && entries[index][w].tag == tag
    {
      var i := 0;
      while i < associativity
        invariant 0 <= i <= associativity
        invariant forall j :: 0 <= j < i ==> entries[index][j].tag != tag
      {
        if entries[index][i].tag == tag {
          return true;
        }
        i := i + 1;
      }
      return false;
    }

    /** lineWay: the lowest way of set `index` that stores `tag`, or -1. */
    method LineWay(index: nat, tag: int) returns (way: int)
      requires Valid() && index < numSets
      ensures way == FirstWay(entries[index], tag)
      ensures way == -1 <==> !Holds(entries[index], tag)
      ensures way >= 0 ==> way < associativity && entries[index][way].tag == tag
    {
      var i := 0;
      while i < associativity
        invariant 0 <= i <= associativity
        invariant forall j :: 0 <= j < i ==> entries[index][j].tag != tag
      {
        if entries[index][i].tag == tag {
          return i;
        }
        i := i + 1;
      }
      return -1;
    }

    /** oldestWay: the largest recency counter of set `index`. It is a
        counter value, not the way that holds it; in every reachable table
        it is still below associativity. */
    method OldestWay(index: nat) returns (oldest: int)
      requires Valid() && index < numSets
      ensures forall w :: 0 <= w < associativity ==> entries[index][w].lastUsed <= oldest
      ensures exists w :: 0 <= w < associativity && entries[index][w].lastUsed == oldest
      ensures oldest == MaxLastUsed(entries[index])
      ensures 0 <= oldest < associativity
    {
      ghost var row := entries[index];
      oldest := entries[index][0].lastUsed;
      var way := 1;
      assert row[..1] == [row[0]];
      while way < associativity
        invariant 1 <= way <= associativity
        invariant oldest == MaxLastUsed(row[..way])
      {
        var toBeTested := entries[index][way].lastUsed;
        assert row[..way + 1][..way] == row[..way];
        if toBeTested > oldest {
          oldest := toBeTested;
        }
        way := way + 1;
      }
      assert row[..associativity] == row;
      OldestInRange(row);
    }

    /** The recency loop shared by recvReq and recvResp, as written: each
        iteration writes way `way`, so it is reset once and then incremented
        once per later way. */
    method RecordUse(index: nat, way: nat)
      requires Valid() && index < numSets && way < associativity
      modifies this`entries
      ensures Valid()
      ensures entries == old(entries)[index := TouchAsWritten(old(entries[index]), way)]
    {
      ghost var row := entries[index];
      var i := 0;
      assert row[way := row[way].(lastUsed := row[way].lastUsed + 0)] == row;
      while i < associativity
        invariant 0 <= i <= associativity
        invariant |entries| == |old(entries)|
        invariant forall s :: 0 <= s < |entries| && s != index ==> entries[s] == old(entries)[s]
        invariant entries[index] == row[way := row[way].(lastUsed :=
          if i <= way then row[way].lastUsed + i else i - 1 - way)]
      {
        if i == way {
          entries := entries[index := entries[index][way := entries[index][way].(lastUsed := 0)]];
        } else {
          entries := entries[index := entries[index][way :=
            entries[index][way].(lastUsed := entries[index][way].lastUsed + 1)]];
        }
        i := i + 1;
      }
      TouchKeepsShape(row, way);
    }

    /** recvReq: a hit answers the CPU at once and updates the set's
        recency; a miss forwards the request to memory and changes nothing else. */
    method RecvReq(req: Addr, reqSize: int)
      requires Valid()
      modifies this
      ensures Valid()
      ensures reqsReceived == old(reqsReceived) + 1 && respsReceived == old(respsReceived)
      ensures
        var index := CalculateIndex(req, blockSize, numSets);
        var tag := CalculateTag(req, blockSize, numSets);
        var row := old(entries)[index];
        if Holds(row, tag) then
          reqsServiced == old(reqsServiced) + 1 &&
          entries == old(entries)[index := TouchAsWritten(row, FirstWay(row, tag))] &&
          sent == old(sent) + [RespToCpu(req)]
        else
          reqsServiced == old(reqsServiced) &&
          entries == old(entries) &&
          sent == old(sent) + [ReqToMem(req, reqSize)]
    {
      reqsReceived := reqsReceived + 1;
      var index := CalculateIndex(req, blockSize, numSets);
      var tag := CalculateTag(req, blockSize, numSets);
      var hit := HasLine(index, tag);
      if hit {
        reqsServiced := reqsServiced + 1;
        var way := LineWay(index, tag);
        RecordUse(index, way);
        sent := sent + [RespToCpu(req)];
      } else {
        sent := sent + [ReqToMem(req, reqSize)];
      }
    }

    /** recvResp: memory returns a line that is not yet in the cache; its tag
        is installed in the way numbered by oldestWay, that way's recency is
        updated, and the CPU is answered. */
    method RecvResp(resp: Addr)
      requires Valid()
      requires !Holds(entries[CalculateIndex(resp, blockSize, numSets)], CalculateTag(resp, blockSize, numSets))
      modifies this
      ensures Valid()
      ensures respsReceived == old(respsReceived) + 1
      ensures reqsReceived == old(reqsReceived) && reqsServiced == old(reqsServiced)
      ensures
        var index := CalculateIndex(resp, blockSize, numSets);
        var tag := CalculateTag(resp, blockSize, numSets);
        entries == old(entries)[index := FillAsWritten(old(entries)[index], tag)] &&
        Holds(entries[index], tag)
      ensures sent == old(sent) + [RespToCpu(resp)]
    {
      respsReceived := respsReceived + 1;
      var index := CalculateIndex(resp, blockSize, numSets);
      var tag := CalculateTag(resp, blockSize, numSets);
      var way := OldestWay(index);
      entries := entries[index := entries[index][way := entries[index][way].(tag := tag)]];
      RecordUse(index, way);
      sent := sent + [RespToCpu(resp)];
    }
  }

  /** A request that misses, the memory's response, and the same request
      again: forwarded once, answered twice, the second time as a hit. */
  method MissThenHit(cache: SimpleCache, a: Addr, reqSize: int)
    requires cache.Valid()
    requires !Holds(cache.entries[CalculateIndex(a, cache.blockSize, cache.numSets)],
                    CalculateTag(a, cache.blockSize, cache.numSets))
    modifies cache
    ensures cache.Valid()
    ensures cache.sent == old(cache.sent) + [ReqToMem(a, reqSize), RespToCpu(a), RespToCpu(a)]
    ensures cache.reqsReceived == old(cache.reqsReceived) + 2
    ensures cache.reqsServiced == old(cache.reqsServiced) + 1
    ensures cache.respsReceived == old(cache.respsReceived) + 1
  {
    cache.RecvReq(a, reqSize);
    cache.RecvResp(a);
    cache.RecvReq(a, reqSize);
  }
}
