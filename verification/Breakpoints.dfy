/**
 The sequential code of drddr/drddr-bp.c over its arrays, each locked region proved to do
 what the step of the protocol does; start and stop on top of it are in `Detector`.
 */
module Breakpoints {
  import opened Words
  import opened Counting
  import opened BpTable

  /** The stream of random32() values reaches entry `i` of `n` at or after draw `from`. */
  ghost predicate Draws(random: nat -> nat, n: nat, i: nat, from: nat)
    requires n > 0
  {
    exists k: nat :: k >= from && random(k) % n == i
  }

  /** The result of a bp_add(-1) that succeeds: one free entry planted. */
  ghost predicate PlantedAny(before: Table, after: Table)
    requires before.Shaped()
  {
    exists i: nat :: i < before.count && before.state[i] != Using && after == Plant(before, i)
  }

  class BreakpointList {
    const addr: array<nat>
    const state: array<BpState>
    const backup: array<Byte>
    const text: array<Byte>
    var count: nat
    var trapCount: int
    var stopping: bool

    ghost predicate Valid()
      reads this, addr, state, backup, text
    {
      && backup != text
      && View().Shaped()
    }

    ghost function View(): Table
      reads this, addr, state, backup, text
    {
      Table(addr[..], state[..], backup[..], text[..], count, trapCount, stopping)
    }

    /** The zeroed globals of a freshly loaded module. */
    constructor (capacity: nat, text: array<Byte>)
      requires text.Length > 0
      ensures Valid() && this.text == text && fresh(addr) && fresh(state) && fresh(backup)
      ensures addr.Length == capacity && count == 0 && trapCount == 0 && !stopping
      ensures View().text == text[..]
      ensures forall i :: 0 <= i < capacity ==> state[i] == Unused
    {
      addr := new nat[capacity](_ => 0);
      state := new BpState[capacity](_ => Unused);
      backup := new Byte[capacity](_ => 0);
      this.text := text;
      count, trapCount, stopping := 0, 0, false;
    }

    /** bp_usage_count */
    method CountUsage() returns (re: nat)
      requires Valid()
      ensures re == UsageCount(View())
    {
      re := 0;
      for i := 0 to count
        invariant re == Tally(state[..i], IsUsing)
      {
        assert state[..i + 1] == state[..i] + [state[i]];
        if state[i] == Using { re := re + 1; }
      }
    }

    /** bp_init */
    method Init(list: seq<nat>)
      requires Valid() && |list| <= addr.Length
      requires forall i :: 0 <= i < |list| ==> list[i] < text.Length
      modifies this, addr, state
      ensures Valid() && View() == InitTable(old(View()), list)
    {
      count := |list|;
      for i := 0 to |list|
        invariant count == |list|
        invariant forall j :: 0 <= j < addr.Length ==> addr[j] == if j < i then list[j] else old(addr[j])
        invariant forall j :: 0 <= j < state.Length ==> state[j] == if j < i then Unused else old(state[j])
      {
        addr[i] := list[i];
        state[i] := Unused;
      }
      trapCount := 0;
      stopping := false;
      ghost var result := InitTable(old(View()), list);
      assert addr[..] == result.addr;
      assert state[..] == result.state;
    }

    /** bp_check */
    method Check(address: nat) returns (found: bool)
      requires Valid()
      ensures found <==> View().Listed(address)
    {
      for i := 0 to count
        invariant forall j :: 0 <= j < i ==> addr[j] != address
      {
        if addr[i] == address { return true; }
      }
      return false;
    }

    /** _bp_remove, and bp_remove around it */
    method Remove(address: nat) returns (re: bool)
      requires Valid()
      modifies state, text
      ensures Valid() && (View(), re) == RemoveBreakpoint(old(View()), address)
    {
      for i := 0 to count
        invariant Valid() && View() == old(View())
        invariant FindUsing(View(), address, 0) == FindUsing(View(), address, i)
      {
        if addr[i] == address && state[i] == Using {
          text[addr[i]] := backup[i];
          state[i] := Unused;
          return true;
        }
      }
      return false;
    }

    /** bp_add with nothing between its unlocked read of bp_stopping and its critical section. */
    method Add(choice: int, random: nat -> nat, from: nat) returns (ok: bool, next: nat)
      requires Valid() && choice >= -1
      requires choice == -1 && !stopping && UsageCount(View()) < count ==>
                 exists i: nat :: i < count && state[i] != Using && Draws(random, count, i, from)
      modifies state, backup, text
      ensures Valid() && next >= from
      ensures !ok ==> View() == old(View())
      ensures ok <==> !stopping && if choice == -1 then UsageCount(old(View())) < count
                                   else choice < count && old(state[choice]) != Using
      ensures ok && choice != -1 ==> View() == Plant(old(View()), choice)
      ensures ok && choice == -1 ==> PlantedAny(old(View()), View())
    {
      next := from;
      if stopping { return false, next; }
      ok, next := AddLocked(choice, random, from);
    }

    /**
     The critical section of bp_add, whatever bp_stopping says by now. The do-while loop draws from
     the random stream until it meets a free entry, so it needs a stream that meets one; `from`
     and `next` count the draws.
     */
    method AddLocked(choice: int, random: nat -> nat, from: nat) returns (ok: bool, next: nat)
      requires Valid() && choice >= -1
      requires choice == -1 && UsageCount(View()) < count ==>
                 exists i: nat :: i < count && state[i] != Using && Draws(random, count, i, from)
      modifies state, backup, text
      ensures Valid() && next >= from
      ensures !ok ==> View() == old(View())
      ensures ok <==> if choice == -1 then UsageCount(old(View())) < count
                      else choice < count && old(state[choice]) != Using
      ensures ok && choice != -1 ==> View() == Plant(old(View()), choice)
      ensures ok && choice == -1 ==> PlantedAny(old(View()), View())
    {
      next := from;
      var i: nat;
      if choice == -1 {
        var used := CountUsage();
        if used == count { return false, next; }
        TallyBounds(state[..count], IsUsing);
        i, next := DrawFree(random, from);
      } else {
        i := choice;
        if i >= count { return false, next; }
        if state[i] == Using { return false, next; }
      }
      PlantAt(i);
      return true, next;
    }

    /** The do-while loop of bp_add(-1). */
    method DrawFree(random: nat -> nat, from: nat) returns (i: nat, next: nat)
      requires Valid() && count > 0
      requires exists i: nat :: i < count && state[i] != Using && Draws(random, count, i, from)
      ensures i < count && state[i] != Using && from < next && i == random(next - 1) % count
      ensures forall k: nat :: from <= k < next - 1 ==> state[random(k) % count] == Using
    {
      ghost var free: nat :| free < count && state[free] != Using && Draws(random, count, free, from);
      ghost var hit: nat :| hit >= from && random(hit) % count == free;
      i, next := random(from) % count, from + 1;
      while state[i] == Using
        invariant from < next <= hit + 1 && i < count && i == random(next - 1) % count
        invariant forall k: nat :: from <= k < next - 1 ==> state[random(k) % count] == Using
        decreases hit + 1 - next
      {
        i, next := random(next) % count, next + 1;
      }
    }

    /** The statements of bp_add once an entry is chosen. */
    method PlantAt(i: nat)
      requires Valid() && i < count
      modifies state, backup, text
      ensures Valid() && View() == Plant(old(View()), i)
    {
      state[i] := Using;
      backup[i] := text[addr[i]];
      text[addr[i]] := INT3;
    }

    /** bp_inc_trapped */
    method IncTrapped() returns (ok: bool)
      requires Valid()
      modifies `trapCount
      ensures Valid() && ok == !stopping
      ensures View() == if ok then old(View()).(trapCount := old(trapCount) + 1) else old(View())
    {
      if stopping { return false; }
      trapCount := trapCount + 1;
      return true;
    }

    /** bp_dec_trapped */
    method DecTrapped()
      requires Valid()
      modifies `trapCount
      ensures Valid() && View() == old(View()).(trapCount := old(trapCount) - 1)
    {
      trapCount := trapCount - 1;
    }

    /** The loop body of bp_clean. */
    method CleanAt(i: nat)
      requires Valid() && i < count && forall j :: 0 <= j < i ==> state[j] != Using
      modifies state, text
      ensures Valid() && View() == CleanEntry(old(View()), i)
    {
      if state[i] == Using {
        RemoveFirst(View(), i);
        var _ := Remove(addr[i]);
      }
    }

    /** The critical section of bp_clean. */
    method CleanLocked()
      requires Valid()
      modifies `stopping, state, text
      ensures Valid() && View() == CleanFrom(old(View()), 0)
    {
      for i := 0 to count
        invariant Valid() && stopping == old(stopping)
        invariant forall j :: 0 <= j < i ==> state[j] != Using
        invariant CleanFrom(View(), i) == CleanFrom(old(View()), 0)
      {
        CleanAt(i);
      }
      stopping := true;
    }
  }

  /** With nothing in use before `i`, _bp_remove(bp_addr[i]) finds entry `i` itself. */
  lemma RemoveFirst(t: Table, i: nat)
    requires t.Shaped() && i < t.count && t.state[i] == Using
    requires forall j :: 0 <= j < i ==> t.state[j] != Using
    ensures RemoveBreakpoint(t, t.addr[i]).0 == CleanEntry(t, i)
  {
  }
}
