/** swap_handler of drddr/drddr-main.c: finding a call, redirecting it, and undoing that at unload. */
module HandlerPatch {
  import opened Words
  import opened Addressing

  const CALL: Byte := 0xE8

  /** The first call opcode at or after `i`, or the end. */
  function Scan(s: seq<Byte>, i: nat): (r: nat)
    requires i <= |s|
    ensures i <= r <= |s| && (r < |s| ==> s[r] == CALL) && forall j :: i <= j < r ==> s[j] != CALL
    decreases |s| - i
  {
    if i == |s| || s[i] == CALL then i else Scan(s, i + 1)
  }

  /** The second call opcode from the handler's entry on, or the end. */
  function CallSite(s: seq<Byte>, h: nat): (p: nat)
    requires h <= |s|
    ensures h <= p <= |s|
    ensures p < |s| ==> s[p] == CALL && exists q :: h <= q < p && s[q] == CALL && forall j :: h <= j < p && j != q ==> s[j] != CALL
  {
    var first := Scan(s, h);
    if first == |s| then first else Scan(s, first + 1)
  }

  /** There is such a call, operand included; otherwise the source scans on into unmapped memory. */
  ghost predicate Patchable(s: seq<Byte>, h: nat) {
    h <= |s| && CallSite(s, h) + 5 <= |s|
  }

  /** The four bytes of a 32-bit value, lowest first. */
  function Bytes4(v: int): (b: seq<Byte>)
    requires 0 <= v < TWO32
    ensures |b| == 4
  {
    [v % 0x100, v / 0x100 % 0x100, v / 0x1_0000 % 0x100, v / 0x100_0000]
  }

  function WriteRel(s: seq<Byte>, p: nat, v: int): (r: seq<Byte>)
    requires p + 5 <= |s| && 0 <= v < TWO32
    ensures |r| == |s|
  {
    s[..p + 1] + Bytes4(v) + s[p + 5..]
  }

  /** The patched memory and the returned old target; byte `i` of `s` is at address `base + i`. */
  function Swap(s: seq<Byte>, base: Word, h: nat, f: Word): (r: (seq<Byte>, Word))
    requires Patchable(s, h)
    ensures |r.0| == |s|
  {
    var p := CallSite(s, h);
    var orig := (Fetch4(s, p + 1) + (base + p) + 5) % TWO32;
    (WriteRel(s, p, (f - (base + p) - 5) % TWO32), 0xffff_ffff_0000_0000 + orig)
  }

  /** Where the processor goes from the call at `p`: the 32-bit operand is signed. */
  function Target(s: seq<Byte>, base: Word, p: nat): Word
    requires p + 5 <= |s|
  {
    Wrap(base + p + 5 + SignExtend(Fetch4(s, p + 1), 4))
  }

  // ---- Bytes and values --------------------------------------------------------------------

  lemma {:induction false} BytesOfFetch(s: seq<Byte>, i: nat)
    requires i + 4 <= |s|
    ensures Bytes4(Fetch4(s, i)) == s[i..i + 4]
  {
    BytesOf(s[i], s[i + 1], s[i + 2], s[i + 3]);
  }

  lemma BytesOf(a: Byte, b: Byte, c: Byte, d: Byte)
    ensures Bytes4((a + 0x100 * b) + 0x1_0000 * (c + 0x100 * d)) == [a, b, c, d]
  {
    var v := (a + 0x100 * b) + 0x1_0000 * (c + 0x100 * d);
    assert v / 0x100 == b + 0x100 * (c + 0x100 * d);
    assert v / 0x1_0000 == c + 0x100 * d;
  }

  lemma FetchOfBytes(s: seq<Byte>, p: nat, v: int)
    requires p + 5 <= |s| && 0 <= v < TWO32
    ensures Fetch4(WriteRel(s, p, v), p + 1) == v
  {
    var b, r := Bytes4(v), WriteRel(s, p, v);
    assert r[p + 1] == b[0] && r[p + 2] == b[1] && r[p + 3] == b[2] && r[p + 4] == b[3];
    SumOfBytes(v);
  }

  lemma SumOfBytes(v: int)
    requires 0 <= v < TWO32
    ensures v % 0x100 + 0x100 * (v / 0x100 % 0x100) + 0x1_0000 * (v / 0x1_0000 % 0x100 + 0x100 * (v / 0x100_0000)) == v
  {
    assert v / 0x1_0000 == v / 0x100 / 0x100 && v / 0x100_0000 == v / 0x1_0000 / 0x100;
  }

  lemma {:induction false} ScanKept(s: seq<Byte>, s': seq<Byte>, i: nat)
    requires i <= |s| == |s'| && Scan(s, i) < |s|
    requires forall j :: 0 <= j <= Scan(s, i) ==> s[j] == s'[j]
    ensures Scan(s', i) == Scan(s, i)
    decreases |s| - i
  {
    if s[i] != CALL { ScanKept(s, s', i + 1); }
  }

  /** Writing behind the call opcode leaves both scans where they were. */
  lemma SiteKept(s: seq<Byte>, h: nat, v: int)
    requires Patchable(s, h) && 0 <= v < TWO32
    ensures var s' := WriteRel(s, CallSite(s, h), v);
            Patchable(s', h) && CallSite(s', h) == CallSite(s, h)
  {
    var s' := WriteRel(s, CallSite(s, h), v);
    ScanKept(s, s', h);
    ScanKept(s, s', Scan(s, h) + 1);
  }

  // ---- What a swap does ----------------------------------------------------------------------

  /** The call now goes to `f` modulo 2^32, and to `f` itself exactly when `f` is within its signed reach. */
  lemma SwapRedirects(s: seq<Byte>, base: Word, h: nat, f: Word)
    requires Patchable(s, h)
    ensures var p := CallSite(s, h);
            var t := Target(Swap(s, base, h, f).0, base, p);
            && t % TWO32 == f % TWO32
            && (t == f <==> Wrap(f - (base + p + 5) + 0x8000_0000) < TWO32)
  {
    var p := CallSite(s, h);
    var v := (f - (base + p) - 5) % TWO32;
    FetchOfBytes(s, p, v);
    Reach(f, base + p + 5, v);
  }

  /** A 32-bit signed offset `v` from `n` reaches `f` modulo 2^32. */
  lemma Reach(f: Word, n: nat, v: int)
    requires v == (f - n) % TWO32
    ensures var t := Wrap(n + SignExtend(v, 4));
            t % TWO32 == f % TWO32 && (t == f <==> Wrap(f - n + 0x8000_0000) < TWO32)
  {
    var q := (f - n) / TWO32;
    assert f - n == TWO32 * q + v;
    var e := SignExtend(v, 4);
    var k := (n + e) / TWO64;
    assert Wrap(n + e) == n + e - TWO64 * k;
    var g := if e == v then q else q + 1;
    assert f - n == TWO32 * g + e;
    assert Wrap(n + e) == f - TWO32 * g - TWO64 * k;
    Low32Same(f, -g - TWO32 * k);
    assert TWO32 * (-g - TWO32 * k) == -(TWO32 * g) - TWO64 * k;
    WindowIff(f, n, g, e);
  }

  lemma Low32Same(f: int, m: int)
    ensures (f + TWO32 * m) % TWO32 == f % TWO32
  {
  }

  lemma WindowIff(f: Word, n: nat, g: int, e: int)
    requires f - n == TWO32 * g + e && -0x8000_0000 <= e < 0x8000_0000
    ensures Wrap(n + e) == f <==> Wrap(f - n + 0x8000_0000) < TWO32
  {
    var q, r := g / TWO32, g % TWO32;
    assert g == TWO32 * q + r;
    Residue(f - n + 0x8000_0000, q, TWO32 * r + e + 0x8000_0000);
    if r == 0 {
      Residue(n + e, -q, f);
    } else {
      Residue(n + e, if f >= TWO32 * r then -q else -q - 1, if f >= TWO32 * r then f - TWO32 * r else f - TWO32 * r + TWO64);
    }
  }

  lemma Residue(x: int, q: int, r: Word)
    requires x == TWO64 * q + r
    ensures Wrap(x) == r
  {
  }

  /** The returned value is the true old target exactly when that lies in the top 4 GiB. */
  lemma ReturnedTarget(s: seq<Byte>, base: Word, h: nat, f: Word)
    requires Patchable(s, h)
    ensures var target := Target(s, base, CallSite(s, h));
            Swap(s, base, h, f).1 % TWO32 == target % TWO32
            && (Swap(s, base, h, f).1 == target <==> target >= 0xffff_ffff_0000_0000)
  {
    var p := CallSite(s, h);
    var v := Fetch4(s, p + 1);
    OldTarget32(v, base + p + 5);
    TopWindow(Target(s, base, p), (v + (base + p) + 5) % TWO32);
  }

  lemma OldTarget32(v: int, n: nat)
    requires 0 <= v < TWO32
    ensures Wrap(n + SignExtend(v, 4)) % TWO32 == (v + n) % TWO32
  {
    var e := SignExtend(v, 4);
    var k := (n + e) / TWO64;
    assert Wrap(n + e) == n + e - TWO64 * k;
    var m := (if e == v then 0 else -1) - TWO32 * k;
    assert Wrap(n + e) == (v + n) + TWO32 * m;
    Low32Same(v + n, m);
  }

  lemma TopWindow(target: Word, low: int)
    requires target % TWO32 == low
    ensures 0xffff_ffff_0000_0000 + low == target <==> target >= 0xffff_ffff_0000_0000
    ensures 0 <= low < TWO32 && (0xffff_ffff_0000_0000 + low) % TWO32 == low
  {
  }

  /**
   Only the four bytes after the second call opcode change, and they become the operand of a call
   to `f`, lowest byte first.
   */
  lemma SwapTouchesOnly(s: seq<Byte>, base: Word, h: nat, f: Word)
    requires Patchable(s, h)
    ensures var p, r := CallSite(s, h), Swap(s, base, h, f).0;
            var v := (f - (base + p + 5)) % 0x1_0000_0000;
            && (forall k :: 0 <= k < |s| && !(p < k <= p + 4) ==> r[k] == s[k])
            && r[p + 1] == v % 0x100 && r[p + 2] == v / 0x100 % 0x100
            && r[p + 3] == v / 0x1_0000 % 0x100 && r[p + 4] == v / 0x100_0000
  {
  }

  /** Swapping the returned value back in restores every byte. */
  lemma SwapBack(s: seq<Byte>, base: Word, h: nat, f: Word)
    requires Patchable(s, h)
    ensures var r := Swap(s, base, h, f);
            Patchable(r.0, h) && Swap(r.0, base, h, r.1).0 == s
  {
    var p := CallSite(s, h);
    var r := Swap(s, base, h, f);
    var v := Fetch4(s, p + 1);
    SiteKept(s, h, (f - (base + p) - 5) % TWO32);
    Undo(v, base + p + 5);
    WriteBack(s, p, (f - (base + p) - 5) % TWO32);
    assert Swap(r.0, base, h, r.1).0 == WriteRel(r.0, p, v);
  }

  /** Writing the old operand over a new one. */
  lemma WriteBack(s: seq<Byte>, p: nat, x: int)
    requires p + 5 <= |s| && 0 <= x < TWO32
    ensures WriteRel(WriteRel(s, p, x), p, Fetch4(s, p + 1)) == s
  {
    BytesOfFetch(s, p + 1);
    var once := WriteRel(s, p, x);
    assert once[..p + 1] == s[..p + 1] && once[p + 5..] == s[p + 5..];
    assert s == s[..p + 1] + s[p + 1..p + 5] + s[p + 5..];
  }

  lemma Undo(v: int, n: nat)
    requires 0 <= v < TWO32
    ensures (0xffff_ffff_0000_0000 + (v + n) % TWO32 - n) % TWO32 == v
  {
    var q := (v + n) / TWO32;
    assert 0xffff_ffff_0000_0000 == TWO32 * 0xffff_ffff;
    assert 0xffff_ffff_0000_0000 + (v + n) % TWO32 - n == v + TWO32 * (0xffff_ffff - q);
    Low32Same(v, 0xffff_ffff - q);
  }

  /**
   Loading swaps the handlers of vectors 3 and 1, unloading swaps 1 and 3 back: the text is
   restored byte for byte, wherever the two call sites lie, overlapping or not.
   */
  lemma LoadThenUnload(s: seq<Byte>, base: Word, h3: nat, h1: nat, f3: Word, f1: Word)
    requires Patchable(s, h3) && Patchable(Swap(s, base, h3, f3).0, h1)
    ensures var int3 := Swap(s, base, h3, f3);
            var debug := Swap(int3.0, base, h1, f1);
            && Patchable(debug.0, h1)
            && var one := Swap(debug.0, base, h1, debug.1);
               Patchable(one.0, h3) && Swap(one.0, base, h3, int3.1).0 == s
  {
    var int3 := Swap(s, base, h3, f3);
    SwapBack(s, base, h3, f3);
    SwapBack(int3.0, base, h1, f1);
  }

  // ---- The code ------------------------------------------------------------------------------

  /** The two scans. */
  method FindCall(mem: array<Byte>, handler: nat) returns (p: nat)
    requires Patchable(mem[..], handler)
    ensures p == CallSite(mem[..], handler)
  {
    ghost var s := mem[..];
    p := handler;
    while mem[p] != CALL
      invariant handler <= p < mem.Length && Scan(s, p) == Scan(s, handler)
      decreases mem.Length - p
    {
      p := p + 1;
    }
    p := p + 1;
    while mem[p] != CALL
      invariant handler <= p < mem.Length && Scan(s, p) == CallSite(s, handler)
      decreases mem.Length - p
    {
      p := p + 1;
    }
  }

  /** The four stores. */
  method StoreRel(mem: array<Byte>, p: nat, offset: int)
    requires p + 5 <= mem.Length && 0 <= offset < TWO32
    modifies mem
    ensures mem[..] == WriteRel(old(mem[..]), p, offset)
  {
    ghost var s := mem[..];
    var bytes := Bytes4(offset);
    mem[p + 1] := bytes[0];
    mem[p + 2] := bytes[1];
    mem[p + 3] := bytes[2];
    mem[p + 4] := bytes[3];
    assert mem[..] == WriteRel(s, p, offset);
  }

  /** swap_handler; `handler` is an index into `mem`, which starts at address `base`. */
  method SwapHandler(mem: array<Byte>, base: Word, handler: nat, f: Word) returns (orig: Word)
    requires Patchable(mem[..], handler)
    modifies mem
    ensures (mem[..], orig) == Swap(old(mem[..]), base, handler, f)
  {
    var p := FindCall(mem, handler);
    var rel := Fetch4(mem[..], p + 1);
    var old32 := (rel + (base + p) + 5) % TWO32;
    StoreRel(mem, p, (f - (base + p) - 5) % TWO32);
    return 0xffff_ffff_0000_0000 + old32;
  }
}
