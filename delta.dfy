/**
 * Delta synchronisation of a key-value state of last-writer-wins
 * registers: local updates overwrite a key, `get_delta` extracts the
 * registers written after a timestamp, and `apply_delta` merges a peer's
 * delta register by register.
 */
module DeltaSyncs {
  import opened Base
  import opened Crdts

  type Register = LWWRegister<seq<u8>>

  /** A `Delta`: changed registers by key. */
  datatype Delta = Delta(changes: map<string, Register>)

  /** The registers of `registers` written after `since`. */
  function Since(registers: map<string, Register>, since: u64): (d: map<string, Register>)
    ensures d.Keys <= registers.Keys
    ensures forall k :: k in registers ==> (k in d <==> registers[k].timestamp > since)
    ensures forall k :: k in d ==> d[k] == registers[k]
  {
    map k | k in registers && registers[k].timestamp > since :: registers[k]
  }

  /** The registers after merging `changes` in: merged where both have a key, else whichever has it. */
  function Applied(registers: map<string, Register>, changes: map<string, Register>): (r: map<string, Register>)
    ensures r.Keys == registers.Keys + changes.Keys
    ensures forall k :: k in r && k in registers && k in changes ==> r[k] == Merge(registers[k], changes[k])
    ensures forall k :: k in r && k !in changes ==> r[k] == registers[k]
    ensures forall k :: k in r && k !in registers ==> r[k] == changes[k]
  {
    map k | k in registers.Keys + changes.Keys ::
      if k in registers && k in changes then Merge(registers[k], changes[k])
      else if k in registers then registers[k]
      else changes[k]
  }

  class DeltaSync {
    var registers: map<string, Register>
    var lastModified: u64

    constructor ()
      ensures registers == map[] && lastModified == 0
    {
      registers := map[];
      lastModified := 0;
    }

    /**
     * `update`: the key's register is replaced outright (no merge, so an
     * older write can replace a newer one), and `last_modified` becomes the
     * latest timestamp seen.
     */
    method Update(key: string, value: seq<u8>, timestamp: u64, nodeId: string)
      modifies this
      ensures registers == old(registers)[key := LWWRegister(value, timestamp, nodeId)]
      ensures lastModified == if timestamp > old(lastModified) then timestamp else old(lastModified)
      ensures lastModified >= old(lastModified) && lastModified >= timestamp
    {
      registers := registers[key := LWWRegister(value, timestamp, nodeId)];
      if timestamp > lastModified {
        lastModified := timestamp;
      }
    }

    /** `get_delta`: a fresh map of the registers newer than `since`; the state is untouched. */
    method GetDelta(since: u64) returns (delta: Delta)
      ensures delta.changes == Since(registers, since)
    {
      var changes: map<string, Register> := map[];
      var todo := registers.Keys;
      while todo != {}
        invariant todo <= registers.Keys
        invariant changes == Since(registers, since) - todo
        decreases todo
      {
        var key :| key in todo;
        if registers[key].timestamp > since {
          changes := changes[key := registers[key]];
        }
        todo := todo - {key};
      }
      delta := Delta(changes);
    }

    /**
     * `apply_delta`: each changed register is LWW-merged into an existing
     * one or inserted; `last_modified` is not updated.
     */
    method ApplyDelta(delta: Delta)
      modifies this
      ensures registers == Applied(old(registers), delta.changes)
      ensures lastModified == old(lastModified)
    {
      registers := MergeDelta(registers, delta.changes);
    }
  }

  /** The loop of `apply_delta`, over the register map. */
  method MergeDelta(registers: map<string, Register>, changes: map<string, Register>) returns (r: map<string, Register>)
    ensures r == Applied(registers, changes)
  {
    r := registers;
    var todo := changes.Keys;
    while todo != {}
      invariant todo <= changes.Keys
      invariant r.Keys == registers.Keys + (changes.Keys - todo)
      invariant forall k :: k in r ==>
        r[k] == (if k in todo || k !in changes then registers[k]
                 else if k in registers then Merge(registers[k], changes[k])
                 else changes[k])
      decreases todo
    {
      var key :| key in todo;
      var reg := changes[key];
      if key in r {
        r := r[key := Merge(r[key], reg)];
      } else {
        r := r[key := reg];
      }
      todo := todo - {key};
    }
    var applied := Applied(registers, changes);
    assert r.Keys == applied.Keys;
    forall k | k in r
      ensures r[k] == applied[k]
    {
    }
  }

  /** Applying the same delta twice is applying it once. */
  lemma AppliedIdempotent(registers: map<string, Register>, changes: map<string, Register>)
    ensures Applied(Applied(registers, changes), changes) == Applied(registers, changes)
  {
    var once := Applied(registers, changes);
    var twice := Applied(once, changes);
    assert twice.Keys == once.Keys;
    forall k | k in twice
      ensures twice[k] == once[k]
    {
      if k in changes {
        if k in registers {
          MergeAbsorbs(registers[k], changes[k]);
        } else {
          MergeIdempotent(changes[k]);
        }
      }
    }
  }

  /**
   * After applying a delta every register is at least as new as both the
   * local one and the delta's one.
   */
  lemma AppliedKeepsNewest(registers: map<string, Register>, changes: map<string, Register>, k: string)
    requires k in registers + changes
    ensures k in registers ==> !Older(Applied(registers, changes)[k], registers[k])
    ensures k in changes ==> !Older(Applied(registers, changes)[k], changes[k])
  {
    var r := Applied(registers, changes);
    if k in registers && k in changes {
      MergeKeepsNewest(registers[k], changes[k]);
    } else if k in registers {
      OlderStrict(registers[k], registers[k], registers[k]);
    } else {
      OlderStrict(changes[k], changes[k], changes[k]);
    }
  }

  /**
   * Two replicas that apply each other's full state as a delta end with
   * the same registers, provided no key holds two different registers with
   * the same timestamp and node id.
   */
  lemma ExchangeConverges(a: map<string, Register>, b: map<string, Register>)
    requires forall k :: k in a && k in b ==>
      a[k] == b[k] || a[k].timestamp != b[k].timestamp || a[k].nodeId != b[k].nodeId
    ensures Applied(a, b) == Applied(b, a)
  {
    var ab, ba := Applied(a, b), Applied(b, a);
    assert ab.Keys == ba.Keys;
    forall k | k in ab
      ensures ab[k] == ba[k]
    {
      if k in a && k in b {
        MergeCommutative(a[k], b[k]);
      }
    }
  }

  /** Update, extract the newer registers, and apply them at a peer. */
  method SyncScenario() returns (delta: Delta, peer: map<string, Register>)
    ensures delta.changes.Keys == {"b"}
    ensures peer == map["a" := LWWRegister([1], 10, "X"), "b" := LWWRegister([2], 20, "X")]
  {
    var source := new DeltaSync();
    source.Update("a", [1], 10, "X");
    source.Update("b", [2], 20, "X");
    delta := source.GetDelta(10);
    var replica := new DeltaSync();
    replica.Update("a", [1], 10, "X");
    replica.ApplyDelta(delta);
    peer := replica.registers;
  }
}
