/**
 The state guarded by bp_lock (drddr/drddr-bp.c) as a value, and what each locked
 region does to it. `Breakpoints` proves that the sequential code computes these
 functions; `Protocol` interleaves them.
 */
module BpTable {
  import opened Words
  import opened Counting

  datatype BpState = Unused | Using | Triggered

  /** `addr`, `state` and `backup` are the whole arrays; only the first `count` entries are listed. */
  datatype Table = Table(
    addr: seq<nat>, state: seq<BpState>, backup: seq<Byte>, text: seq<Byte>,
    count: nat, trapCount: int, stopping: bool)
  {
    /** What the code needs to be free of memory errors. */
    ghost predicate Shaped() {
      && |addr| == |state| == |backup|
      && count <= |addr|
      && forall i :: 0 <= i < |addr| ==> addr[i] < |text|
    }

    ghost predicate Listed(a: nat)
      requires count <= |addr|
    {
      exists i :: 0 <= i < count && addr[i] == a
    }
  }

  predicate IsUsing(s: BpState) {
    s == Using
  }

  /** Number of listed entries in use, as bp_usage_count computes it. */
  function UsageCount(t: Table): nat
    requires t.count <= |t.state|
  {
    Tally(t.state[..t.count], IsUsing)
  }

  lemma UsageUpdate(t: Table, r: Table, i: nat)
    requires t.Shaped() && r.Shaped() && i < t.count == r.count && |r.state| == |t.state|
    requires r.state == t.state[i := r.state[i]]
    ensures UsageCount(r) == UsageCount(t) - (if t.state[i] == Using then 1 else 0) + (if r.state[i] == Using then 1 else 0)
  {
    TallyUpdate(t.state[..t.count], IsUsing, i, r.state[i]);
    assert r.state[..r.count] == t.state[..t.count][i := r.state[i]];
  }

  /** The first entry at or after `i` that is in use at address `a`, or `count`. */
  function FindUsing(t: Table, a: nat, i: nat): (r: nat)
    requires |t.addr| == |t.state| && i <= t.count <= |t.addr|
    ensures i <= r <= t.count
    ensures r < t.count ==> t.addr[r] == a && t.state[r] == Using
    ensures forall j :: i <= j < r ==> !(t.addr[j] == a && t.state[j] == Using)
    decreases t.count - i
  {
    if i == t.count then i
    else if t.addr[i] == a && t.state[i] == Using then i
    else FindUsing(t, a, i + 1)
  }

  /** Put the saved byte back and free entry `i`. */
  function Restore(t: Table, i: nat): Table
    requires t.Shaped() && i < t.count
  {
    t.(text := t.text[t.addr[i] := t.backup[i]], state := t.state[i := Unused])
  }

  /** Effect and result of _bp_remove. */
  function RemoveBreakpoint(t: Table, a: nat): (r: (Table, bool))
    requires t.Shaped()
  {
    var i := FindUsing(t, a, 0);
    if i < t.count then (Restore(t, i), true) else (t, false)
  }

  /** Save the live byte and plant INT3 over it, the last statements of bp_add. */
  function Plant(t: Table, i: nat): Table
    requires t.Shaped() && i < t.count
  {
    t.(state := t.state[i := Using],
       backup := t.backup[i := t.text[t.addr[i]]],
       text := t.text[t.addr[i] := INT3])
  }

  /** The critical section of bp_clean from entry `i` on. */
  function CleanFrom(t: Table, i: nat): (r: Table)
    requires t.Shaped() && i <= t.count
    ensures r.Shaped() && r.addr == t.addr && r.count == t.count && r.backup == t.backup
    ensures |r.text| == |t.text| && r.trapCount == t.trapCount && r.stopping
    ensures forall j :: 0 <= j < |t.state| ==>
              r.state[j] == if i <= j < t.count && t.state[j] == Using then Unused else t.state[j]
    decreases t.count - i
  {
    if i == t.count then t.(stopping := true)
    else CleanFrom(CleanEntry(t, i), i + 1)
  }

  function CleanEntry(t: Table, i: nat): Table
    requires t.Shaped() && i < t.count
  {
    if t.state[i] == Using then Restore(t, i) else t
  }

  /** One iteration of the loop of bp_init. */
  function WriteEntry(t: Table, i: nat, a: nat): Table
    requires i < |t.addr| == |t.state|
  {
    t.(addr := t.addr[i := a], state := t.state[i := Unused])
  }

  /** The loop of bp_init from entry `i` on. */
  function InitFrom(t: Table, list: seq<nat>, i: nat): (r: Table)
    requires i <= |list| <= |t.addr| == |t.state|
    ensures |r.addr| == |t.addr| && |r.state| == |t.state|
    ensures r == t.(addr := r.addr, state := r.state)
    ensures r.addr == t.addr[..i] + list[i..] + t.addr[|list|..]
    ensures forall j :: 0 <= j < |t.state| ==> r.state[j] == if i <= j < |list| then Unused else t.state[j]
    decreases |list| - i
  {
    if i == |list| then t
    else InitFrom(WriteEntry(t, i, list[i]), list, i + 1)
  }

  /** The whole of bp_init. */
  function InitTable(t: Table, list: seq<nat>): (r: Table)
    requires t.Shaped() && |list| <= |t.addr|
    requires forall i :: 0 <= i < |list| ==> list[i] < |t.text|
    ensures r.Shaped() && r.addr[..r.count] == list && !r.stopping && r.trapCount == 0
    ensures r.text == t.text && r.backup == t.backup && r.addr[r.count..] == t.addr[r.count..]
    ensures forall i :: 0 <= i < |r.state| ==> r.state[i] == if i < r.count then Unused else t.state[i]
  {
    InitFrom(t.(count := |list|), list, 0).(trapCount := 0, stopping := false)
  }

  // ---- The kernel text ----------------------------------------------------------

  ghost predicate Planted(t: Table, a: nat)
    requires |t.addr| == |t.state|
  {
    exists i :: 0 <= i < |t.state| && t.state[i] == Using && t.addr[i] == a
  }

  ghost predicate NoneInUse(t: Table) {
    forall i :: 0 <= i < |t.state| ==> t.state[i] != Using
  }

  /** The list a session may be started with: mapped, distinct, and no INT3 of the kernel's own. */
  ghost predicate GoodList(list: seq<nat>, orig: seq<Byte>) {
    && (forall i :: 0 <= i < |list| ==> list[i] < |orig| && orig[list[i]] != INT3)
    && (forall i, j :: 0 <= i < j < |list| ==> list[i] != list[j])
  }

  /** Every entry in use has INT3 planted over its saved byte, and nothing else was touched. */
  ghost predicate TextOk(t: Table, orig: seq<Byte>) {
    && t.Shaped()
    && |t.text| == |orig|
    && (forall i :: 0 <= i < |t.state| && t.state[i] == Using ==>
          i < t.count && t.text[t.addr[i]] == INT3 && t.backup[i] == orig[t.addr[i]])
    && (forall i, j :: 0 <= i < j < |t.state| && t.state[i] == Using && t.state[j] == Using ==>
          t.addr[i] != t.addr[j])
    && (forall a :: 0 <= a < |orig| ==> Planted(t, a) || t.text[a] == orig[a])
  }

  lemma RestoreKeepsText(t: Table, orig: seq<Byte>, i: nat)
    requires TextOk(t, orig) && i < t.count && t.state[i] == Using
    ensures TextOk(Restore(t, i), orig)
  {
    var r := Restore(t, i);
    forall a | 0 <= a < |orig| ensures Planted(r, a) || r.text[a] == orig[a] {
      if a != t.addr[i] && Planted(t, a) {
        var k :| 0 <= k < |t.state| && t.state[k] == Using && t.addr[k] == a;
        assert r.state[k] == Using && r.addr[k] == a;
      }
    }
  }

  lemma PlantKeepsText(t: Table, orig: seq<Byte>, i: nat)
    requires TextOk(t, orig) && GoodList(t.addr[..t.count], orig)
    requires i < t.count && t.state[i] != Using
    ensures TextOk(Plant(t, i), orig)
  {
    var r := Plant(t, i);
    FreeAddress(t, orig, i);
    forall a | 0 <= a < |orig| ensures Planted(r, a) || r.text[a] == orig[a] {
      if a == t.addr[i] { assert r.state[i] == Using; } else { StillPlanted(t, i, a); }
    }
  }

  /** Nothing is planted at the address of a free entry. */
  lemma FreeAddress(t: Table, orig: seq<Byte>, i: nat)
    requires TextOk(t, orig) && GoodList(t.addr[..t.count], orig)
    requires i < t.count && t.state[i] != Using
    ensures t.text[t.addr[i]] == orig[t.addr[i]]
    ensures forall k :: 0 <= k < |t.state| && t.state[k] == Using ==> t.addr[k] != t.addr[i]
  {
    var list := t.addr[..t.count];
    assert forall k :: 0 <= k < |t.state| && t.state[k] == Using ==> list[k] == t.addr[k];
    assert list[i] == t.addr[i];
    assert !Planted(t, t.addr[i]);
  }

  lemma StillPlanted(t: Table, i: nat, a: nat)
    requires t.Shaped() && i < t.count && t.state[i] != Using && a != t.addr[i]
    ensures Planted(t, a) ==> Planted(Plant(t, i), a)
  {
    if Planted(t, a) {
      var k :| 0 <= k < |t.state| && t.state[k] == Using && t.addr[k] == a;
      assert Plant(t, i).state[k] == Using;
    }
  }

  /** bp_trap_count and bp_stopping are no part of the text. */
  lemma CountersKeepText(t: Table, orig: seq<Byte>, n: int, stopping: bool)
    requires TextOk(t, orig)
    ensures TextOk(t.(trapCount := n, stopping := stopping), orig)
  {
    var r := t.(trapCount := n, stopping := stopping);
    forall a | 0 <= a < |orig| ensures Planted(r, a) || r.text[a] == orig[a] {
      if Planted(t, a) {
        var k :| 0 <= k < |t.state| && t.state[k] == Using && t.addr[k] == a;
        assert r.state[k] == Using;
      }
    }
  }

  lemma {:induction false} CleanKeepsText(t: Table, orig: seq<Byte>, i: nat)
    requires TextOk(t, orig) && i <= t.count
    ensures TextOk(CleanFrom(t, i), orig)
    decreases t.count - i
  {
    if i == t.count {
      CountersKeepText(t, orig, t.trapCount, true);
    } else {
      CleanEntryKeepsText(t, orig, i);
      CleanKeepsText(CleanEntry(t, i), orig, i + 1);
    }
  }

  lemma CleanEntryKeepsText(t: Table, orig: seq<Byte>, i: nat)
    requires TextOk(t, orig) && i < t.count
    ensures TextOk(CleanEntry(t, i), orig) && CleanEntry(t, i).count == t.count
  {
    if t.state[i] == Using { RestoreKeepsText(t, orig, i); }
  }

  /** With no entry in use the kernel text is the original one, byte for byte. */
  lemma NothingPlanted(t: Table, orig: seq<Byte>)
    requires TextOk(t, orig) && NoneInUse(t)
    ensures t.text == orig
  {
    assert forall a :: 0 <= a < |orig| ==> !Planted(t, a);
  }

  /**
   The text seen by someone who looks at one address: INT3 exactly while some listed
   entry for it is in use, the original byte otherwise.
   */
  lemma TextAt(t: Table, orig: seq<Byte>, a: nat)
    requires TextOk(t, orig) && a < |orig|
    ensures t.text[a] == if Planted(t, a) then INT3 else orig[a]
  {
  }
}
