/** gen_flash_layout.py: the flash map validator, which only ever compares neighbouring partitions. */
module FlashLayout {
  import opened Bytes

  datatype Flash = Flash(addressBytes: u32, minimumCapacity: u32, maximumCapacity: u32, eraseSize: u32, programSize: u32)

  datatype Partition = Partition(name: string, offset: u32, size: u32, requiredCapacity: u32, writable: bool, description: string)

  function End(p: Partition): nat { p.offset + p.size }

  /** `NAME_RE`: a lower-case letter, then letters, digits and underscores. */
  predicate GoodName(name: string) {
    && name != [] && 'a' <= name[0] <= 'z'
    && forall c :: c in name ==> 'a' <= c <= 'z' || '0' <= c <= '9' || c == '_'
  }

  predicate GoodFlash(flash: Flash) {
    && flash.addressBytes == 3
    && flash.eraseSize != 0 && flash.programSize != 0
    && flash.eraseSize % flash.programSize == 0
    && flash.minimumCapacity <= flash.maximumCapacity <= 0x100_0000
  }

  /** The checks on one partition by itself. */
  predicate GoodPartition(flash: Flash, p: Partition)
    requires GoodFlash(flash)
  {
    && GoodName(p.name) && p.description != [] && p.size != 0
    && p.offset % flash.eraseSize == 0 && p.size % flash.eraseSize == 0
    && End(p) <= flash.maximumCapacity
    && End(p) <= p.requiredCapacity
    && (p.requiredCapacity == flash.minimumCapacity || p.requiredCapacity == flash.maximumCapacity)
  }

  /** What the loop of `validate` has established about the partitions it has passed. */
  ghost predicate Accepted(flash: Flash, ps: seq<Partition>)
    requires GoodFlash(flash)
  {
    && (forall i :: 0 <= i < |ps| ==> GoodPartition(flash, ps[i]))
    && (forall i, j :: 0 <= i < j < |ps| ==> ps[i].name != ps[j].name)
    && (forall i :: 0 <= i < |ps| - 1 ==> End(ps[i]) <= ps[i + 1].offset)
  }

  ghost predicate ValidLayout(flash: Flash, ps: seq<Partition>) {
    && ps != [] && GoodFlash(flash) && Accepted(flash, ps)
    && ps[0].offset == 0 && End(ps[|ps| - 1]) == flash.maximumCapacity
  }

  /** `validate`. */
  method Validate(flash: Flash, ps: seq<Partition>) returns (ok: bool)
    ensures ok <==> ValidLayout(flash, ps)
  {
    if ps == [] || !GoodFlash(flash) {
      return false;
    }
    var seen: set<string> := {};
    var previousEnd := 0;
    for i := 0 to |ps|
      invariant Accepted(flash, ps[..i])
      invariant seen == set j | 0 <= j < i :: ps[j].name
      invariant previousEnd == if i == 0 then 0 else End(ps[i - 1])
    {
      var p := ps[i];
      if p.name in seen || !GoodPartition(flash, p) || p.offset < previousEnd {
        if p.name in seen {
          var j :| 0 <= j < i && ps[j].name == p.name;
        }
        return false;
      }
      forall j | 0 <= j < i ensures ps[j].name != p.name {
        assert ps[j].name in seen;
      }
      OneMoreAccepted(flash, ps, i);
      seen := seen + {p.name};
      previousEnd := End(p);
    }
    assert ps[..|ps|] == ps;
    return ps[0].offset == 0 && previousEnd == flash.maximumCapacity;
  }

  lemma OneMoreAccepted(flash: Flash, ps: seq<Partition>, i: nat)
    requires GoodFlash(flash) && i < |ps| && Accepted(flash, ps[..i]) && GoodPartition(flash, ps[i])
    requires forall j :: 0 <= j < i ==> ps[j].name != ps[i].name
    requires i > 0 ==> End(ps[i - 1]) <= ps[i].offset
    ensures Accepted(flash, ps[..i + 1])
  {
    var before, now := ps[..i], ps[..i + 1];
    forall k | 0 <= k < i ensures GoodPartition(flash, now[k]) {
      assert before[k] == now[k];
    }
    forall j, k | 0 <= j < k <= i ensures now[j].name != now[k].name {
      assert k < i ==> before[j] == now[j] && before[k] == now[k];
    }
    forall k | 0 <= k < i ensures End(now[k]) <= now[k + 1].offset {
      assert k + 1 < i ==> before[k] == now[k] && before[k + 1] == now[k + 1];
    }
  }

  /** `partition_by_name`. */
  method PartitionByName(ps: seq<Partition>, name: string) returns (r: Option<Partition>)
    ensures r.None? <==> forall i :: 0 <= i < |ps| ==> ps[i].name != name
    ensures r.Some? ==> r.value in ps && r.value.name == name
  {
    for i := 0 to |ps|
      invariant forall j :: 0 <= j < i ==> ps[j].name != name
    {
      if ps[i].name == name {
        return Some(ps[i]);
      }
    }
    return None;
  }

  /** Comparing neighbours is enough: any two partitions are in order and disjoint. */
  lemma {:induction false} PartitionsAreDisjoint(flash: Flash, ps: seq<Partition>, i: nat, j: nat)
    requires GoodFlash(flash) && Accepted(flash, ps) && i < j < |ps|
    ensures End(ps[i]) <= ps[j].offset
    decreases j
  {
    if i < j - 1 {
      PartitionsAreDisjoint(flash, ps, i, j - 1);
    }
  }

  /** A partition owns its bytes: no byte of it belongs to a partition of another name. */
  lemma OwnBytes(flash: Flash, ps: seq<Partition>, p: Partition, q: Partition, x: nat)
    requires ValidLayout(flash, ps) && p in ps && q in ps && p.name != q.name
    requires p.offset <= x < End(p)
    ensures !(q.offset <= x < End(q))
  {
    var i :| 0 <= i < |ps| && ps[i] == p;
    var j :| 0 <= j < |ps| && ps[j] == q;
    if i < j {
      PartitionsAreDisjoint(flash, ps, i, j);
    } else {
      PartitionsAreDisjoint(flash, ps, j, i);
    }
  }
}
