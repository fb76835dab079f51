/** The bitmap frame allocator of src/memory/physical.rs. */
module PhysicalMemory {
  import opened Options
  import opened Bitmap
  import opened FrameRuns
  import opened VirtualAddress

  /** A 64-bit counter, with the wrapping atomic addition and subtraction. */
  type Counter = x: nat | x < 0x1_0000_0000_0000_0000

  function Add(x: Counter, n: nat): Counter {
    (x + n) % 0x1_0000_0000_0000_0000
  }

  function Sub(x: Counter, n: nat): Counter {
    (x - n) % 0x1_0000_0000_0000_0000
  }

  lemma AddCases(x: Counter, n: Counter)
    ensures Add(x, n) == if x + n < 0x1_0000_0000_0000_0000 then x + n else x + n - 0x1_0000_0000_0000_0000
  {
  }

  lemma SubCases(x: Counter, n: Counter)
    ensures Sub(x, n) == if n <= x then x - n else x - n + 0x1_0000_0000_0000_0000
  {
  }

  lemma AddSwap(u: Counter, r: Counter, t: nat, n: nat)
    requires t + n < 0x1_0000_0000_0000_0000
    ensures Add(u, r) == t ==> Add(Add(u, n), r) == t + n
  {
    hide Add;
    AddCases(u, r);
    AddCases(u, n);
    AddCases(Add(u, n), r);
  }

  lemma SubSwap(u: Counter, r: Counter, t: nat, n: nat)
    requires n <= t < 0x1_0000_0000_0000_0000
    ensures Add(u, r) == t ==> Add(Sub(u, n), r) == t - n
  {
    hide Add, Sub;
    AddCases(u, r);
    SubCases(u, n);
    AddCases(Sub(u, n), r);
  }

  lemma AddExact(x: Counter, n: nat)
    requires x + n < 0x1_0000_0000_0000_0000
    ensures Add(x, n) == x + n
  {
  }

  lemma SubExact(x: Counter, n: nat)
    requires n <= x
    ensures Sub(x, n) == x - n
  {
  }

  lemma AddSub(x: Counter, n: nat)
    requires n < 0x1_0000_0000_0000_0000
    ensures Sub(Add(x, n), n) == x
  {
  }

  lemma SubTwice(x: Counter, m: nat, n: nat)
    requires m + n < 0x1_0000_0000_0000_0000
    ensures Sub(Sub(x, m), n) == Sub(x, m + n)
  {
  }

  predicate Within(s: nat, n: nat, f: nat) {
    s <= f < s + n
  }

  ghost function Range(s: nat, n: nat): set<nat> {
    set f: nat | f < s + n && Within(s, n, f)
  }

  /** The result of an operation whose unsigned subtraction may underflow and abort the kernel. */
  datatype Attempt = Panicked | Done(addr: Option<nat>)

  /** The simple linear scan: the least frame at or above `start` whose bit is clear. */
  ghost predicate LeastFree(ws: seq<bv64>, total: nat, start: nat, r: Option<nat>)
    requires total <= 64 * |ws|
  {
    match r
    case None => forall f: nat :: start <= f < total ==> Get(ws, f)
    case Some(f) => start <= f < total && !Get(ws, f) && forall g: nat :: start <= g < f ==> Get(ws, g)
  }

  /** One word of the scan, from bit `low` on. */
  lemma ScanStep(ws: seq<bv64>, w: nat, low: nat)
    requires w < |ws| && low < 64
    ensures match FirstHit(ws[w], FromBit(low))
      case None => forall f: nat :: 64 * w + low <= f < 64 * w + 64 ==> Get(ws, f)
      case Some(t) =>
        && low <= t < 64 && !Get(ws, 64 * w + t)
        && forall f: nat :: 64 * w + low <= f < 64 * w + t ==> Get(ws, f)
  {
    hide BitOf, FromBit, FirstHit;
    WordScan(ws[w], low);
    forall f: nat | 64 * w <= f < 64 * w + 64 ensures Get(ws, f) <==> BitOf(ws[w], f - 64 * w) {
      assert f / 64 == w && f % 64 == f - 64 * w;
    }
  }

  /**
    `find_first_free_frame_from`: the word-by-word scan with masks agrees with the linear scan, from every start
    and whatever the padding bits of the last word hold.
   */
  method FindFirstFreeFrameFrom(bitmap: array<bv64>, total: nat, start: nat) returns (r: Option<nat>)
    requires bitmap.Length == WordCount(total)
    ensures LeastFree(bitmap[..], total, start, r)
  {
    hide Get, FromBit, FirstHit;
    var startWord, startBit := start / 64, start % 64;
    ghost var ws := bitmap[..];
    FromZero();
    var w := startWord;
    while w < bitmap.Length
      invariant startWord <= w
      invariant w <= bitmap.Length || w == startWord
      invariant forall f: nat :: start <= f < 64 * w && f < total ==> Get(ws, f)
    {
      var word := bitmap[w];
      var mask := if w == startWord then FromBit(startBit) else 0xFFFF_FFFF_FFFF_FFFF;
      ScanStep(ws, w, if w == startWord then startBit else 0);
      var hit := FirstHit(word, mask);
      if hit.Some? {
        var frame := 64 * w + hit.value;
        if frame < total {
          return Some(frame);
        }
      }
      w := w + 1;
    }
    r := None;
  }

  /** The frame a next-fit search from `hint` settles on. */
  ghost predicate NextFit(taken: set<nat>, total: nat, hint: nat, f: nat) {
    && f < total && f !in taken
    && (if hint <= f then forall g: nat :: hint <= g < f ==> g in taken
        else forall g: nat :: g < total && (g < f || hint <= g) ==> g in taken)
  }

  /** The lowest free frame at or above `start`, if there is one. */
  ghost predicate Lowest(taken: set<nat>, total: nat, start: nat, r: Option<nat>) {
    match r
    case None => forall f: nat :: start <= f < total ==> f in taken
    case Some(f) => start <= f < total && f !in taken && forall g: nat :: start <= g < f ==> g in taken
  }

  ghost predicate AllTaken(taken: set<nat>, total: nat) {
    forall f: nat :: f < total ==> f in taken
  }

  /** No run of `n` free frames starts below `s`. */
  ghost predicate NoneLower(taken: set<nat>, s: nat, n: nat) {
    forall t: nat :: t < s ==> !FreeRun(taken, t, n)
  }

  /** The run that a request for `count` frames is served from: the next fit for one frame, the lowest run for more. */
  ghost predicate ServedFrom(taken: set<nat>, total: nat, hint: nat, count: nat, s: nat) {
    && count > 0 && s + count <= total && FreeRun(taken, s, count)
    && (if count == 1 then NextFit(taken, total, hint, s) else NoneLower(taken, s, count))
  }

  lemma ServedOnce(taken: set<nat>, total: nat, hint: nat, count: nat, s: nat)
    requires ServedFrom(taken, total, hint, count, s)
    ensures forall t: nat :: ServedFrom(taken, total, hint, count, t) ==> t == s
  {
    hide FreeRun;
    forall t: nat | ServedFrom(taken, total, hint, count, t) ensures t == s {
    }
  }

  class Manager {
    const bitmap: array<bv64>
    const totalFrames: nat
    var usedFrames: Counter
    var reservedFrames: Counter
    var maxReservedFrame: nat
    /** The frames handed out, and the frames set aside. */
    ghost var used: set<nat>
    ghost var reserved: set<nat>

    /** `new`: takes over a bitmap as it finds it. */
    constructor (memorySize: nat, words: array<bv64>)
      requires words.Length == WordCount(memorySize / 4096)
      ensures bitmap == words && totalFrames == memorySize / 4096
      ensures usedFrames == 0 && reservedFrames == 0 && maxReservedFrame == 0
    {
      bitmap, totalFrames := words, memorySize / 4096;
      usedFrames, reservedFrames, maxReservedFrame := 0, 0, 0;
    }

    ghost function Taken(): set<nat>
      reads `used, `reserved
    {
      used + reserved
    }

    /** The bitmap holds exactly the used and the reserved frames. */
    ghost predicate Shape()
      reads `used, `reserved, bitmap
    {
      && totalFrames < 0x10_0000_0000_0000
      && bitmap.Length == WordCount(totalFrames)
      && Represents(bitmap[..], totalFrames, Taken())
      && used !! reserved
    }

    /** The counters are the sizes of the two sets. */
    ghost predicate Counted()
      reads `used, `reserved, `usedFrames, `reservedFrames
    {
      usedFrames == |used| && reservedFrames == |reserved|
    }

    /** The two counters add up to the taken frames, if one counts on past 2^64. */
    ghost predicate Balanced()
      reads `used, `reserved, `usedFrames, `reservedFrames
    {
      Add(usedFrames, reservedFrames) == |Taken()|
    }

    /** Right counters balance. */
    lemma CountedBalances()
      requires Valid()
      ensures Balanced()
    {
      TakenBound();
      AddExact(usedFrames, reservedFrames);
    }

    ghost predicate Valid()
      reads this, bitmap
    {
      Shape() && Counted()
    }

    /** `reset_all_bits`: `new` does not clear the bitmap it is given. */
    method ResetAllBits()
      requires bitmap.Length == WordCount(totalFrames) && totalFrames < 0x10_0000_0000_0000
      modifies this, bitmap
      ensures Valid() && used == {} && reserved == {} && maxReservedFrame == old(maxReservedFrame)
    {
      for i := 0 to bitmap.Length
        modifies bitmap
        invariant forall j :: 0 <= j < i ==> bitmap[j] == 0
      {
        bitmap[i] := 0;
      }
      usedFrames, reservedFrames := 0, 0;
      used, reserved := {}, {};
      ZeroRepresents(bitmap[..], totalFrames);
      assert Taken() == {};
    }

    /** `get_bit`: out-of-range frames read as free. */
    method GetBit(frame: nat) returns (r: bool)
      requires Shape()
      ensures r <==> frame in Taken()
    {
      hide BitOf;
      if frame >= totalFrames { return false; }
      r := BitOf(bitmap[frame / 64], frame % 64);
      assert Get(bitmap[..], frame) <==> frame in Taken();
    }

    /** `set_bit`: out-of-range frames are ignored. */
    method SetBit(frame: nat)
      requires Shape()
      modifies bitmap
      ensures Represents(bitmap[..], totalFrames, if frame < totalFrames then Taken() + {frame} else Taken())
    {
      hide SetIn, Get;
      if frame >= totalFrames { return; }
      SetRepresents(bitmap[..], totalFrames, Taken(), frame);
      bitmap[frame / 64] := SetIn(bitmap[frame / 64], frame % 64);
      assert bitmap[..] == Set(old(bitmap[..]), frame);
    }

    /** `clear_bit`: out-of-range frames are ignored. */
    method ClearBit(frame: nat)
      requires Shape()
      modifies bitmap
      ensures Represents(bitmap[..], totalFrames, if frame < totalFrames then Taken() - {frame} else Taken())
    {
      hide ClearIn, Get;
      if frame >= totalFrames { return; }
      ClearRepresents(bitmap[..], totalFrames, Taken(), frame);
      bitmap[frame / 64] := ClearIn(bitmap[frame / 64], frame % 64);
      assert bitmap[..] == Clear(old(bitmap[..]), frame);
    }

    /** Sets the bit of a free frame that is being handed out. */
    method Mark(frame: nat)
      requires Shape() && frame < totalFrames && frame !in Taken()
      modifies this`used, bitmap
      ensures Shape() && used == old(used) + {frame}
    {
      hide Get, Represents;
      SetBit(frame);
      used := used + {frame};
      assert old(Taken()) + {frame} == Taken();
    }

    /** The common step of the allocating methods: takes one free frame and counts it. */
    method TakeFrame(frame: nat)
      requires Shape() && frame < totalFrames && frame !in Taken()
      modifies this`usedFrames, this`used, bitmap
      ensures Shape() && used == old(used) + {frame}
      ensures usedFrames == Add(old(usedFrames), 1)
      ensures (old(Counted()) ==> Counted()) && (old(Balanced()) ==> Balanced())
    {
      hide Shape, Add;
      Mark(frame);
      TakenSize();
      AllTakenSize();
      TakeBalances(old(usedFrames), reservedFrames, old(used), reserved, {frame});
      if usedFrames < |used| { AddExact(usedFrames, 1); }
      usedFrames := Add(usedFrames, 1);
    }

    lemma TakenBound()
      requires Valid()
      ensures |used| + |reserved| == |Taken()| <= totalFrames < 0x10_0000_0000_0000
    {
      hide Get;
      FreeAndTaken(Taken(), totalFrames);
    }

    /** Takes a frame and moves the hint up to it. */
    method Claim(frame: nat) returns (addr: nat)
      requires Shape() && frame < totalFrames && frame !in Taken()
      modifies this, bitmap
      ensures Shape() && used == old(used) + {frame} && reserved == old(reserved) && addr == frame * 4096
      ensures usedFrames == Add(old(usedFrames), 1) && reservedFrames == old(reservedFrames)
      ensures (old(Counted()) ==> Counted()) && (old(Balanced()) ==> Balanced())
      ensures maxReservedFrame == if frame > old(maxReservedFrame) then frame else old(maxReservedFrame)
    {
      hide Shape, Add;
      TakeFrame(frame);
      if frame > maxReservedFrame { maxReservedFrame := frame; }
      addr := frame * 4096;
    }

    /**
      `alloc_frame`: the first free frame from the hint on, else the first free frame of all;
      it fails only when every frame is taken, whatever the hint.
     */
    method AllocFrame() returns (r: Option<nat>)
      requires Shape()
      modifies this, bitmap
      ensures Shape() && reserved == old(reserved) && reservedFrames == old(reservedFrames)
      ensures usedFrames == (if r.Some? then Add(old(usedFrames), 1) else old(usedFrames))
      ensures (old(Counted()) ==> Counted()) && (old(Balanced()) ==> Balanced())
      ensures r == None <==> AllTaken(old(Taken()), totalFrames)
      ensures r == None ==>
        used == old(used) && maxReservedFrame == old(maxReservedFrame) && bitmap[..] == old(bitmap[..])
      ensures r.Some? ==> var f := r.value / 4096;
        && r.value == f * 4096 && NextFit(old(Taken()), totalFrames, old(maxReservedFrame), f)
        && used == old(used) + {f}
        && maxReservedFrame == if f > old(maxReservedFrame) then f else old(maxReservedFrame)
    {
      hide Shape, Add;
      ghost var taken := Taken();
      var hit := FindFromHint(maxReservedFrame);
      if hit.Some? {
        assert hit.value !in taken;
        var addr := Claim(hit.value);
        return Some(addr);
      }
      hit := FirstFreeFrame();
      if hit.Some? {
        assert hit.value !in taken;
        var addr := Claim(hit.value);
        return Some(addr);
      }
      r := None;
    }

    /** The masked scan, read as a search in the set of taken frames. */
    method FindFromHint(start: nat) returns (r: Option<nat>)
      requires Shape()
      ensures Lowest(Taken(), totalFrames, start, r)
    {
      hide Get, Represents, LeastFree;
      r := FindFirstFreeFrameFrom(bitmap, totalFrames, start);
      ScanIsSet(start, r);
    }

    /** The frame-by-frame fallback of `alloc_frame`. */
    method FirstFreeFrame() returns (r: Option<nat>)
      requires Shape()
      ensures Lowest(Taken(), totalFrames, 0, r)
    {
      hide Get, Represents;
      for frame := 0 to totalFrames
        invariant forall f: nat :: f < frame ==> f in Taken()
      {
        var busy := GetBit(frame);
        if !busy { return Some(frame); }
      }
      r := None;
    }

    lemma ScanIsSet(start: nat, r: Option<nat>)
      requires Shape() && LeastFree(bitmap[..], totalFrames, start, r)
      ensures Lowest(Taken(), totalFrames, start, r)
    {
      hide Get;
    }

    /** The inner search loop of `alloc_frames_contiguous`. */
    method IsFreeRun(start: nat, count: nat) returns (free: bool)
      requires Shape()
      ensures free <==> FreeRun(Taken(), start, count)
    {
      hide Get, Represents;
      for offset := 0 to count
        invariant FreeRun(Taken(), start, offset)
      {
        var busy := GetBit(start + offset);
        if busy { return false; }
      }
      free := true;
    }

    /** Sets every bit of a free run. */
    method MarkRun(start: nat, count: nat)
      requires Shape() && start + count <= totalFrames && FreeRun(Taken(), start, count)
      modifies this`used, bitmap
      ensures Shape() && used == old(used) + Range(start, count)
    {
      hide Get, Represents;
      RangeStart(start);
      for offset := 0 to count
        invariant Shape() && used == old(used) + Range(start, offset)
      {
        RangeGrow(start, offset);
        Mark(start + offset);
      }
    }

    /** Sets every bit of a free run and counts the frames. */
    method TakeRun(start: nat, count: nat)
      requires Shape() && start + count <= totalFrames && FreeRun(Taken(), start, count)
      modifies this, bitmap
      ensures Shape() && used == old(used) + Range(start, count) && reserved == old(reserved)
      ensures usedFrames == Add(old(usedFrames), count) && reservedFrames == old(reservedFrames)
      ensures (old(Counted()) ==> Counted()) && (old(Balanced()) ==> Balanced())
      ensures maxReservedFrame == old(maxReservedFrame)
    {
      hide Shape, Add, Range, FreeRun;
      MarkRun(start, count);
      AllTakenSize();
      RunTaken(usedFrames, reservedFrames, old(used), reserved, start, count);
      usedFrames := Add(usedFrames, count);
    }

    lemma TakenSize()
      requires Shape()
      ensures |used| <= totalFrames < 0x10_0000_0000_0000
    {
      hide Get;
      FreeAndTaken(used, totalFrames);
    }

    /**
      `alloc_frames_contiguous`: for two or more frames the lowest run that fits; the subtraction that bounds the
      search aborts when more frames are asked for than exist.
     */
    method AllocFramesContiguous(count: nat) returns (r: Attempt)
      requires Shape()
      modifies this, bitmap
      ensures Shape() && reserved == old(reserved) && reservedFrames == old(reservedFrames)
      ensures usedFrames == (if r.Done? && r.addr.Some? then Add(old(usedFrames), count) else old(usedFrames))
      ensures (old(Counted()) ==> Counted()) && (old(Balanced()) ==> Balanced())
      ensures r.Panicked? <==> count >= 2 && count > totalFrames
      ensures r.Done? ==> (r.addr.Some? <==> count > 0 && HasRun(old(Taken()), totalFrames, count))
      ensures !(r.Done? && r.addr.Some?) ==> used == old(used) && maxReservedFrame == old(maxReservedFrame)
      ensures !(r.Done? && r.addr.Some?) ==> bitmap[..] == old(bitmap[..])
      ensures r.Done? && r.addr.Some? ==> var s := r.addr.value / 4096;
        && r.addr.value == s * 4096 && s + count <= totalFrames
        && FreeRun(old(Taken()), s, count) && used == old(used) + Range(s, count)
        && ServedFrom(old(Taken()), totalFrames, old(maxReservedFrame), count, s)
        && (var top := if count >= 2 then s + count else s;
            maxReservedFrame == if top > old(maxReservedFrame) then top else old(maxReservedFrame))
    {
      hide Shape, FreeRun, HasRun, Add, NextFit;
      ghost var taken := Taken();
      NoRun(taken, totalFrames, count);
      if count == 0 { return Done(None); }
      if count == 1 {
        r := AllocSingle();
        return;
      }
      if count > totalFrames { return Panicked; }
      for start := 0 to totalFrames - count + 1
        invariant Shape() && unchanged(this) && unchanged(bitmap)
        invariant forall t: nat :: t < start ==> !FreeRun(taken, t, count)
      {
        var free := IsFreeRun(start, count);
        if free {
          TakeRun(start, count);
          if start + count > maxReservedFrame { maxReservedFrame := start + count; }
          return Done(Some(start * 4096));
        }
      }
      r := Done(None);
    }

    /** A request for one frame goes to `alloc_frame`. */
    method AllocSingle() returns (r: Attempt)
      requires Shape()
      modifies this, bitmap
      ensures Shape() && reserved == old(reserved) && reservedFrames == old(reservedFrames)
      ensures r.Done? && (r.addr.Some? <==> HasRun(old(Taken()), totalFrames, 1))
      ensures usedFrames == (if r.addr.Some? then Add(old(usedFrames), 1) else old(usedFrames))
      ensures (old(Counted()) ==> Counted()) && (old(Balanced()) ==> Balanced())
      ensures r.addr == None ==>
        used == old(used) && maxReservedFrame == old(maxReservedFrame) && bitmap[..] == old(bitmap[..])
      ensures r.addr.Some? ==> var s := r.addr.value / 4096;
        && r.addr.value == s * 4096 && s + 1 <= totalFrames
        && FreeRun(old(Taken()), s, 1) && used == old(used) + Range(s, 1)
        && NextFit(old(Taken()), totalFrames, old(maxReservedFrame), s)
        && maxReservedFrame == if s > old(maxReservedFrame) then s else old(maxReservedFrame)
    {
      hide Shape, FreeRun, HasRun, Add;
      SingleRun(Taken(), totalFrames);
      var one := AllocFrame();
      if one.Some? {
        SingleRange(one.value / 4096);
      }
      r := Done(one);
    }

    /** The taken frames determine the bitmap. */
    lemma SameBits(before: seq<bv64>, taken: set<nat>)
      requires Shape() && taken == Taken() && Represents(before, totalFrames, taken)
      ensures bitmap[..] == before
    {
      hide Get, Represents;
      RepresentsUnique(bitmap[..], before, totalFrames, taken);
    }

    /** Clears the bit of a taken frame, whichever set it belongs to, and counts one used frame less. */
    method Release(frame: nat)
      requires Shape() && frame in Taken()
      modifies `used, `reserved, `usedFrames, bitmap
      ensures Shape() && used == old(used) - {frame} && reserved == old(reserved) - {frame}
      ensures usedFrames == Sub(old(usedFrames), 1)
    {
      hide Get, Sub;
      ClearBit(frame);
      used, reserved := used - {frame}, reserved - {frame};
      usedFrames := Sub(usedFrames, 1);
      assert old(Taken()) - {frame} == Taken();
    }

    /** Frees one frame if it exists and is taken. */
    method FreeOne(frame: nat)
      requires Shape()
      modifies `used, `reserved, `usedFrames, bitmap
      ensures Shape() && used == old(used) - {frame} && reserved == old(reserved) - {frame}
      ensures usedFrames == if frame in old(Taken()) then Sub(old(usedFrames), 1) else old(usedFrames)
    {
      hide Shape, Sub;
      InRange(frame);
      if frame < totalFrames {
        var busy := GetBit(frame);
        if busy { Release(frame); }
      }
    }

    /**
      `free_frame`: the frame becomes free. The counters stay right exactly when the frame was not a reserved one,
      because freeing a reserved frame is charged to the used frames.
     */
    method FreeFrame(addr: nat)
      requires Shape()
      modifies this, bitmap
      ensures Shape() && used == old(used) - {addr / 4096} && reserved == old(reserved) - {addr / 4096}
      ensures usedFrames == if addr / 4096 in old(Taken()) then Sub(old(usedFrames), 1) else old(usedFrames)
      ensures (old(Counted()) ==> (Counted() <==> addr / 4096 !in old(reserved))) && (old(Balanced()) ==> Balanced())
      ensures reservedFrames == old(reservedFrames) && maxReservedFrame == old(maxReservedFrame)
    {
      hide Shape, Sub, Add;
      if addr / 4096 in used && Counted() { SubExact(usedFrames, 1); }
      AllTakenSize();
      FreeBalances(usedFrames, reservedFrames, used, reserved, {addr / 4096});
      OneMet(addr / 4096, Taken());
      SubNone(usedFrames);
      FreeOne(addr / 4096);
    }

    lemma InRange(frame: nat)
      requires Shape()
      ensures frame in Taken() ==> frame < totalFrames
    {
      hide Get;
    }

    /**
      `free_frames_contiguous`: frees the range and counts down its taken frames; the counters stay right exactly when
      it holds no reserved frame.
     */
    method FreeFramesContiguous(addr: nat, count: nat)
      requires Shape()
      modifies this, bitmap
      ensures Shape()
      ensures var range := Range(addr / 4096, count);
        && used == old(used) - range && reserved == old(reserved) - range
        && usedFrames == Sub(old(usedFrames), Met(range, old(Taken())))
        && (old(Counted()) ==> (Counted() <==> range !! old(reserved)))
      ensures old(Balanced()) ==> Balanced()
      ensures reservedFrames == old(reservedFrames) && maxReservedFrame == old(maxReservedFrame)
    {
      hide Shape, Range, Sub, Add;
      AllTakenSize();
      TakenSize();
      ghost var u, v := used, reserved;
      FreeBalances(usedFrames, reservedFrames, u, v, Range(addr / 4096, count));
      FreeRange(addr / 4096, count);
      FreedCount(u, v, Range(addr / 4096, count));
    }

    /** The loop of `free_frames_contiguous`. */
    method FreeRange(start: nat, count: nat)
      requires Shape()
      modifies `used, `reserved, `usedFrames, bitmap
      ensures Shape() && used == old(used) - Range(start, count) && reserved == old(reserved) - Range(start, count)
      ensures usedFrames == Sub(old(usedFrames), Met(Range(start, count), old(Taken())))
    {
      hide Shape, Range, Sub, Met, Without;
      ghost var u, v := used, reserved;
      AllTakenSize();
      FreeStart(start, u, v, usedFrames);
      WithoutIs(u, start, count);
      WithoutIs(v, start, count);
      for i := 0 to count
        invariant Shape() && used == Without(u, start, i) && reserved == Without(v, start, i)
        invariant usedFrames == Sub(old(usedFrames), Met(Range(start, i), u + v))
      {
        FreeStep(start, i, u, v, old(usedFrames));
        FreeOne(start + i);
      }
    }

    lemma AllTakenSize()
      requires Shape()
      ensures used !! reserved && |Taken()| <= totalFrames < 0x10_0000_0000_0000
    {
      hide Get;
      FreeAndTaken(Taken(), totalFrames);
    }

    /** Sets the bit of a free frame that is being set aside. */
    method Reserve(frame: nat)
      requires Shape() && frame < totalFrames && frame !in Taken()
      modifies this`reserved, bitmap
      ensures Shape() && reserved == old(reserved) + {frame}
    {
      hide Get, Represents;
      SetBit(frame);
      reserved := reserved + {frame};
      assert old(Taken()) + {frame} == Taken();
    }

    /** `reserve_frame`. */
    method ReserveFrame(addr: nat)
      requires Shape()
      modifies this, bitmap
      ensures Shape() && used == old(used) && usedFrames == old(usedFrames)
      ensures (old(Counted()) ==> Counted()) && (old(Balanced()) ==> Balanced())
      ensures var f := addr / 4096;
        && reserved == (if f < totalFrames && f !in old(Taken()) then old(reserved) + {f} else old(reserved))
        && reservedFrames ==
           (if f < totalFrames && f !in old(Taken()) then Add(old(reservedFrames), 1) else old(reservedFrames))
        && maxReservedFrame ==
           if f < totalFrames && f !in old(Taken()) && f > old(maxReservedFrame) then f else old(maxReservedFrame)
    {
      hide Shape, Add;
      AllTakenSize();
      var frame := addr / 4096;
      if frame < totalFrames {
        var busy := GetBit(frame);
        if !busy {
          if reservedFrames == |reserved| { AddExact(reservedFrames, 1); }
          ReserveBalances(usedFrames, reservedFrames, used, reserved, frame);
          Reserve(frame);
          reservedFrames := Add(reservedFrames, 1);
          if frame > maxReservedFrame { maxReservedFrame := frame; }
        }
      }
    }

    /** `alloc_at`: succeeds exactly when the frame exists and is free. */
    method AllocAt(addr: nat) returns (ok: bool)
      requires Shape()
      modifies this, bitmap
      ensures Shape() && reserved == old(reserved) && reservedFrames == old(reservedFrames)
      ensures usedFrames == (if ok then Add(old(usedFrames), 1) else old(usedFrames))
      ensures (old(Counted()) ==> Counted()) && (old(Balanced()) ==> Balanced())
      ensures ok <==> addr / 4096 < totalFrames && addr / 4096 !in old(Taken())
      ensures used == if ok then old(used) + {addr / 4096} else old(used)
      ensures maxReservedFrame == old(maxReservedFrame)
    {
      hide Shape, Add;
      var frame := addr / 4096;
      if frame >= totalFrames { return false; }
      var busy := GetBit(frame);
      if busy { return false; }
      TakeFrame(frame);
      ok := true;
    }

    /**
      `get_free_frames`: the subtractions abort exactly when the counters exceed the total. Balanced counters give the
      number of free frames, and exceed the total exactly when one of them has wrapped, as it does once more reserved
      frames were freed than frames are used.
     */
    method GetFreeFrames() returns (r: Option<nat>)
      requires Shape()
      ensures r == None <==> usedFrames + reservedFrames > totalFrames
      ensures Balanced() ==> (r == None <==> usedFrames + reservedFrames != |Taken()|)
      ensures Balanced() && r.Some? ==> r.value == |FreeFrames(Taken(), totalFrames)|
      ensures Counted() ==> r == Some(|FreeFrames(Taken(), totalFrames)|)
    {
      hide Shape;
      AllTakenSize();
      CountFree();
      if usedFrames > totalFrames { return None; }
      if totalFrames - usedFrames < reservedFrames { return None; }
      r := Some(totalFrames - usedFrames - reservedFrames);
    }

    lemma CountFree()
      requires Shape()
      ensures |FreeFrames(Taken(), totalFrames)| == totalFrames - |Taken()|
    {
      hide Get;
      FreeAndTaken(Taken(), totalFrames);
    }

    /** `find_largest_free_block`. */
    method FindLargestFreeBlock() returns (maxFree: nat)
      requires Shape()
      ensures IsLargest(Taken(), totalFrames, maxFree)
    {
      hide Get, Represents, FreeRun, HasRun, Tail;
      maxFree := 0;
      var current := 0;
      ghost var taken := Taken();
      EmptyRun(taken, 0);
      TailStart(taken);
      for i := 0 to totalFrames
        invariant current == Tail(taken, i) && HasRun(taken, i, maxFree)
        invariant forall n: nat :: HasRun(taken, i, n) ==> n <= maxFree || n <= current
      {
        RunsGrowAll(taken, i, i + 1);
        TailStep(taken, i);
        var busy := GetBit(i);
        if !busy {
          current := current + 1;
        } else {
          if current > maxFree {
            RunWithin(taken, i + 1, i, current);
            maxFree := current;
          }
          current := 0;
        }
      }
      if current > maxFree {
        RunWithin(taken, totalFrames, totalFrames, current);
        maxFree := current;
      }
    }

    /** `get_fragmentation_info`: the number of maximal free runs and of free frames. */
    method GetFragmentationInfo() returns (blocks: nat, free: Option<nat>)
      requires Shape()
      ensures blocks == |RunStarts(Taken(), totalFrames)|
      ensures free == None <==> usedFrames + reservedFrames > totalFrames
      ensures Balanced() && free.Some? ==> free.value == |FreeFrames(Taken(), totalFrames)|
      ensures Counted() ==> free == Some(|FreeFrames(Taken(), totalFrames)|)
    {
      hide Get, Represents;
      blocks := 0;
      var inBlock := false;
      assert RunStarts(Taken(), 0) == {};
      for i := 0 to totalFrames
        invariant inBlock <==> Tail(Taken(), i) > 0
        invariant blocks == |RunStarts(Taken(), i)|
      {
        RunStartsGrow(Taken(), i);
        var busy := GetBit(i);
        if !busy {
          if !inBlock {
            blocks := blocks + 1;
            inBlock := true;
          }
        } else {
          inBlock := false;
        }
      }
      free := GetFreeFrames();
    }

    /** `is_bitmap_full` sees the clear padding bits: it answers true exactly when all frames are taken and none pad. */
    method IsBitmapFull() returns (full: bool)
      requires Shape()
      ensures full <==> totalFrames % 64 == 0 && AllTaken(Taken(), totalFrames)
    {
      hide Get, BitOf;
      for i := 0 to bitmap.Length
        invariant forall f: nat :: f < 64 * i ==> f in Taken()
      {
        WordIsFull(bitmap[..], i);
        if bitmap[i] != 0xFFFF_FFFF_FFFF_FFFF {
          ghost var f: nat :| 64 * i <= f < 64 * i + 64 && !Get(bitmap[..], f);
          assert f !in Taken();
          return false;
        }
      }
      assert totalFrames < 64 * bitmap.Length ==> totalFrames in Taken();
      full := true;
    }

    /** `alloc_frames_contiguous` after `find_largest_free_block`: it succeeds exactly up to the length found. */
    method AllocUpToLargest(count: nat) returns (largest: nat, r: Attempt)
      requires Shape()
      modifies this, bitmap
      ensures Shape() && (r.Done? && r.addr.Some? <==> 0 < count <= largest)
      ensures largest <= totalFrames && (r.Panicked? ==> count > largest)
    {
      hide Shape, FreeRun, HasRun, Add, NextFit;
      largest := FindLargestFreeBlock();
      LargestDecides(Taken(), totalFrames, largest, count);
      LargestFits(Taken(), totalFrames, largest);
      r := AllocFramesContiguous(count);
    }

    /**
      `alloc_and_map`: succeeds exactly when a run exists and the mapper accepts the one it is served from; otherwise
      bitmap and counters are as before.
     */
    method AllocAndMap(size: nat, vmm: (nat, nat) -> bool) returns (r: Attempt)
      requires Shape()
      modifies this, bitmap
      ensures Shape() && reserved == old(reserved) && reservedFrames == old(reservedFrames)
      ensures (old(Counted()) ==> Counted()) && (old(Balanced()) ==> Balanced())
      ensures r.Panicked? <==> PageCount(size) >= 2 && PageCount(size) > totalFrames
      ensures r.Done? && r.addr.Some? ==> PageCount(size) > 0 && HasRun(old(Taken()), totalFrames, PageCount(size))
      ensures forall s: nat ::
        r.Done? && ServedFrom(old(Taken()), totalFrames, old(maxReservedFrame), PageCount(size), s) ==>
          r.addr == if vmm(s * 4096, size) then Some(s * 4096) else None
      ensures r.Done? && r.addr.Some? ==>
        && used == old(used) + Range(r.addr.value / 4096, PageCount(size))
        && FreeRun(old(Taken()), r.addr.value / 4096, PageCount(size))
        && usedFrames == Add(old(usedFrames), PageCount(size))
      ensures !(r.Done? && r.addr.Some?) ==> used == old(used) && usedFrames == old(usedFrames)
      ensures !(r.Done? && r.addr.Some?) ==> bitmap[..] == old(bitmap[..])
      ensures maxReservedFrame >= old(maxReservedFrame)
    {
      hide Shape, FreeRun, HasRun, Add, Sub, Range, NextFit, ServedFrom, Represents, VirtualAddress.PageCount;
      var frames := PageCount(size);
      ShapeBits();
      r := AllocFramesContiguous(frames);
      NoneServed(old(Taken()), totalFrames, old(maxReservedFrame), frames);
      if r.Done? && r.addr.Some? {
        ServedOnce(old(Taken()), totalFrames, old(maxReservedFrame), frames, r.addr.value / 4096);
      }
      if r.Done? && r.addr.Some? && !vmm(r.addr.value, size) {
        GiveBack(old(used), old(usedFrames), old(bitmap[..]), r.addr.value, frames);
        r := Done(None);
      }
    }

    /** Frees a run that was just taken: everything but the hint is as before the run was taken. */
    method GiveBack(ghost before: set<nat>, ghost counter: Counter, ghost bits: seq<bv64>, addr: nat, count: nat)
      requires Shape() && FreeRun(before + reserved, addr / 4096, count)
      requires used == before + Range(addr / 4096, count) && usedFrames == Add(counter, count)
      requires Represents(bits, totalFrames, before + reserved)
      modifies this, bitmap
      ensures Shape() && used == before && reserved == old(reserved) && bitmap[..] == bits
      ensures usedFrames == counter && reservedFrames == old(reservedFrames)
          && maxReservedFrame == old(maxReservedFrame)
    {
      hide Shape, FreeRun, Add, Sub, Range, Represents, Met;
      AllTakenSize();
      TakenBack(before, reserved, addr / 4096, count, counter);
      FreeFramesContiguous(addr, count);
      SameBits(bits, before + reserved);
    }

    /** `alloc_guarded_region`: the usable address, the size, and the guard page before it. */
    method AllocGuardedRegion(size: nat) returns (r: Attempt)
      requires Shape()
      modifies this, bitmap
      ensures Shape() && reserved == old(reserved) && reservedFrames == old(reservedFrames)
      ensures old(Counted()) ==> Counted()
      ensures r.Panicked? <==> PageCount(size) + 2 > totalFrames
      ensures r.Done? ==> (r.addr.Some? <==> HasRun(old(Taken()), totalFrames, PageCount(size) + 2))
      ensures r.Done? && r.addr.Some? ==> r.addr.value >= 4096 && var s := r.addr.value / 4096 - 1;
        && r.addr.value == (s + 1) * 4096 && s + PageCount(size) + 2 <= totalFrames
        && used == old(used) + Range(s, PageCount(size) + 2) && FreeRun(old(Taken()), s, PageCount(size) + 2)
        && NoneLower(old(Taken()), s, PageCount(size) + 2)
        && usedFrames == Add(old(usedFrames), PageCount(size) + 2)
      ensures !(r.Done? && r.addr.Some?) ==> used == old(used) && usedFrames == old(usedFrames)
      ensures !(r.Done? && r.addr.Some?) ==> bitmap[..] == old(bitmap[..])
      ensures maxReservedFrame >= old(maxReservedFrame)
    {
      hide Shape, FreeRun, HasRun, Add, Range, NextFit, VirtualAddress.PageCount;
      r := AllocFramesContiguous(PageCount(size) + 2);
      if r.Done? && r.addr.Some? {
        r := Done(Some(r.addr.value + 4096));
      }
    }

    /** `free_guarded_region`. */
    method FreeGuardedRegion(size: nat, guardBefore: nat)
      requires Shape()
      modifies this, bitmap
      ensures Shape()
      ensures var range := Range(guardBefore / 4096, PageCount(size) + 2);
        && used == old(used) - range && reserved == old(reserved) - range
        && usedFrames == Sub(old(usedFrames), Met(range, old(Taken())))
        && (old(Counted()) ==> (Counted() <==> range !! old(reserved)))
      ensures reservedFrames == old(reservedFrames) && maxReservedFrame == old(maxReservedFrame)
    {
      hide Shape, Range, Sub, VirtualAddress.PageCount;
      FreeFramesContiguous(guardBefore, PageCount(size) + 2);
    }

    /** A guarded region that is allocated and freed again leaves bitmap and counters as they were. */
    method GuardedRoundTrip(size: nat) returns (r: Attempt)
      requires Shape()
      modifies this, bitmap
      ensures Shape() && bitmap[..] == old(bitmap[..]) && used == old(used) && reserved == old(reserved)
      ensures usedFrames == old(usedFrames) && reservedFrames == old(reservedFrames)
    {
      hide Shape, FreeRun, HasRun, Add, Sub, Range, Represents, Met, VirtualAddress.PageCount;
      ShapeBits();
      r := AllocGuardedRegion(size);
      if r.Done? && r.addr.Some? {
        GuardFrame(r.addr.value, r.addr.value / 4096 - 1);
        GiveGuardedBack(old(used), old(usedFrames), old(bitmap[..]), r.addr.value - 4096, size);
      }
    }

    /** Frees a guarded region that was just taken. */
    method GiveGuardedBack(ghost before: set<nat>, ghost counter: Counter, ghost bits: seq<bv64>, guardBefore: nat,
        size: nat)
      requires Shape() && FreeRun(before + reserved, guardBefore / 4096, PageCount(size) + 2)
      requires used == before + Range(guardBefore / 4096, PageCount(size) + 2)
          && usedFrames == Add(counter, PageCount(size) + 2)
      requires Represents(bits, totalFrames, before + reserved)
      modifies this, bitmap
      ensures Shape() && used == before && reserved == old(reserved) && bitmap[..] == bits
      ensures usedFrames == counter && reservedFrames == old(reservedFrames)
          && maxReservedFrame == old(maxReservedFrame)
    {
      hide Shape, FreeRun, Add, Sub, Range, Represents, Met, VirtualAddress.PageCount;
      AllTakenSize();
      TakenBack(before, reserved, guardBefore / 4096, PageCount(size) + 2, counter);
      FreeGuardedRegion(size, guardBefore);
      SameBits(bits, before + reserved);
    }

    lemma ShapeBits()
      requires Shape()
      ensures Represents(bitmap[..], totalFrames, Taken())
    {
    }
  }

  /** Taking frames keeps the counters balanced. */
  lemma TakeBalances(u: Counter, r: Counter, used: set<nat>, reserved: set<nat>, more: set<nat>)
    requires used !! reserved && (used + reserved) !! more && |used + more + reserved| < 0x10_0000_0000_0000
    ensures Add(u, r) == |used + reserved| ==> Add(Add(u, |more|), r) == |used + more + reserved|
  {
    hide Add;
    assert used + more + reserved == (used + reserved) + more;
    AddSwap(u, r, |used + reserved|, |more|);
  }

  /** Counting a run that was taken, on the sets and the counters. */
  lemma RunTaken(u: Counter, r: Counter, used: set<nat>, reserved: set<nat>, s: nat, n: nat)
    requires FreeRun(used + reserved, s, n) && (used + Range(s, n)) !! reserved
    requires |used + Range(s, n) + reserved| < 0x10_0000_0000_0000
    ensures u == |used| ==> Add(u, n) == |used + Range(s, n)|
    ensures Add(u, r) == |used + reserved| ==> Add(Add(u, n), r) == |used + Range(s, n) + reserved|
  {
    hide Add, Range, FreeRun;
    var range := Range(s, n);
    RunOutside(used, reserved, s, n);
    RangeSize(s, n);
    SubsetSize(used + range, used + range + reserved);
    assert |used + range| == |used| + |range|;
    if u == |used| { AddExact(u, n); }
    TakeBalances(u, r, used, reserved, range);
  }

  /** So does freeing them, whichever set they come from. */
  lemma FreeBalances(u: Counter, r: Counter, used: set<nat>, reserved: set<nat>, range: set<nat>)
    requires used !! reserved && |used + reserved| < 0x10_0000_0000_0000
    ensures Add(u, r) == |used + reserved| ==>
      Add(Sub(u, Met(range, used + reserved)), r) == |(used - range) + (reserved - range)|
  {
    var taken := used + reserved;
    hide Add, Sub;
    assert (used - range) + (reserved - range) == taken - range;
    assert taken == (taken - range) + (range * taken);
    SubSwap(u, r, |taken|, |range * taken|);
  }

  lemma ReserveBalances(u: Counter, r: Counter, used: set<nat>, reserved: set<nat>, frame: nat)
    requires frame !in used + reserved && |used + reserved| < 0x10_0000_0000_0000
    ensures Add(u, r) == |used + reserved| ==> Add(u, Add(r, 1)) == |used + (reserved + {frame})|
  {
    hide Add;
    assert used + (reserved + {frame}) == (used + reserved) + {frame};
    AddCases(u, r);
    AddCases(r, 1);
    AddCases(u, Add(r, 1));
  }

  lemma OneMet(f: nat, taken: set<nat>)
    ensures Met({f}, taken) == if f in taken then 1 else 0
  {
    assert {f} * taken == if f in taken then {f} else {};
  }

  lemma SubNone(x: Counter)
    ensures Sub(x, 0) == x
  {
  }

  lemma GuardFrame(addr: nat, start: nat)
    requires addr == (start + 1) * 4096
    ensures (addr - 4096) / 4096 == start
  {
  }

  /** Taking a free run and freeing it again, on the sets and the counter. */
  lemma TakenBack(u: set<nat>, v: set<nat>, s: nat, n: nat, counter: Counter)
    requires FreeRun(u + v, s, n) && |u + Range(s, n) + v| < 0x10_0000_0000_0000
    ensures u + Range(s, n) - Range(s, n) == u && v - Range(s, n) == v
    ensures Sub(Add(counter, n), Met(Range(s, n), u + Range(s, n) + v)) == counter
  {
    hide FreeRun, Range, Sub, Add;
    RunOutside(u, v, s, n);
    RangeSize(s, n);
    SubsetSize(Range(s, n), u + Range(s, n) + v);
    assert Range(s, n) * (u + Range(s, n) + v) == Range(s, n);
    AddSub(counter, n);
  }

  /** How many frames of the range are taken. */
  ghost function Met(range: set<nat>, taken: set<nat>): nat {
    |range * taken|
  }

  ghost function Without(t: set<nat>, s: nat, n: nat): set<nat> {
    t - Range(s, n)
  }

  lemma WithoutIs(t: set<nat>, s: nat, n: nat)
    ensures Without(t, s, n) == t - Range(s, n)
  {
  }

  lemma FreeStart(s: nat, u: set<nat>, v: set<nat>, counter: Counter)
    ensures Without(u, s, 0) == u && Without(v, s, 0) == v
    ensures Sub(counter, Met(Range(s, 0), u + v)) == counter
  {
    RangeStart(s);
    assert Range(s, 0) * (u + v) == {};
  }

  /** One round of freeing a range, on the sets and the counter. */
  lemma FreeStep(s: nat, n: nat, u: set<nat>, v: set<nat>, counter: Counter)
    requires |u + v| < 0x10_0000_0000_0000
    ensures Without(u, s, n) - {s + n} == Without(u, s, n + 1) && Without(v, s, n) - {s + n} == Without(v, s, n + 1)
    ensures var busy := s + n in Without(u, s, n) + Without(v, s, n);
      var c := Sub(counter, Met(Range(s, n), u + v));
      (if busy then Sub(c, 1) else c) == Sub(counter, Met(Range(s, n + 1), u + v))
  {
    hide Range, Sub;
    MeetsGrow(s, n, u + v);
    RangeGrow(s, n);
    SubTwice(counter, Met(Range(s, n), u + v), 1);
  }

  lemma {:induction false} SubsetSize(a: set<nat>, b: set<nat>)
    requires a <= b
    ensures |a| <= |b|
    decreases |a|
  {
    if a != {} {
      var x :| x in a;
      SubsetSize(a - {x}, b - {x});
    }
  }

  lemma MeetsGrow(s: nat, n: nat, t: set<nat>)
    ensures |Range(s, n + 1) * t| == |Range(s, n) * t| + (if s + n in t then 1 else 0)
    ensures |Range(s, n) * t| <= |t|
  {
    RangeGrow(s, n);
    SubsetSize(Range(s, n) * t, t);
    if s + n in t {
      assert Range(s, n + 1) * t == Range(s, n) * t + {s + n};
    } else {
      assert Range(s, n + 1) * t == Range(s, n) * t;
    }
  }

  /** Counting down the freed frames leaves the right numbers exactly when no freed frame was reserved. */
  lemma FreedCount(used: set<nat>, reserved: set<nat>, range: set<nat>)
    requires |used| < 0x10_0000_0000_0000
    ensures |reserved - range| == |reserved| <==> range !! reserved
    ensures range !! reserved ==> Sub(|used|, Met(range, used + reserved)) == |used - range|
  {
    LostReserved(reserved, range);
    if range !! reserved {
      assert range * (used + reserved) == used * range;
      assert used == (used - range) + (used * range);
      SubExact(|used|, |used * range|);
    }
  }

  /** The longest run is no longer than the memory. */
  lemma LargestFits(taken: set<nat>, total: nat, r: nat)
    requires IsLargest(taken, total, r)
    ensures r <= total
  {
  }

  lemma NoneServed(taken: set<nat>, total: nat, hint: nat, count: nat)
    ensures (forall s: nat :: ServedFrom(taken, total, hint, count, s) ==> count > 0 && HasRun(taken, total, count))
  {
    hide FreeRun, NextFit;
    NoRun(taken, total, count);
  }

  lemma NoRun(taken: set<nat>, total: nat, n: nat)
    ensures HasRun(taken, total, n) <==> exists t: nat :: t + n <= total && FreeRun(taken, t, n)
  {
  }

  lemma LostReserved(reserved: set<nat>, range: set<nat>)
    ensures |reserved - range| == |reserved| <==> range !! reserved
  {
    assert reserved - range == reserved - (reserved * range);
    assert (reserved - range) + (reserved * range) == reserved;
    assert range !! reserved <==> reserved * range == {};
  }

  lemma RunOutside(used: set<nat>, reserved: set<nat>, s: nat, n: nat)
    requires FreeRun(used + reserved, s, n)
    ensures used !! Range(s, n) && used + Range(s, n) - Range(s, n) == used
    ensures reserved - Range(s, n) == reserved && Range(s, n) !! reserved
  {
  }

  lemma WordIsFull(ws: seq<bv64>, i: nat)
    requires i < |ws|
    ensures ws[i] == 0xFFFF_FFFF_FFFF_FFFF <==> forall f: nat :: 64 * i <= f < 64 * i + 64 ==> Get(ws, f)
  {
    hide BitOf;
    FullWord(ws[i]);
    forall f: nat | 64 * i <= f < 64 * i + 64 ensures Get(ws, f) <==> BitOf(ws[i], f - 64 * i) {
      assert f / 64 == i && f % 64 == f - 64 * i;
    }
    if forall f: nat :: 64 * i <= f < 64 * i + 64 ==> Get(ws, f) {
      forall j: nat | j < 64 ensures BitOf(ws[i], j) {
        assert Get(ws, 64 * i + j);
      }
    }
  }

  lemma EmptyRun(taken: set<nat>, total: nat)
    ensures HasRun(taken, total, 0)
    ensures forall n: nat :: HasRun(taken, 0, n) ==> n == 0
  {
    assert 0 + 0 <= total && FreeRun(taken, 0, 0);
  }

  lemma RunsGrowAll(taken: set<nat>, k: nat, next: nat)
    requires next == k + 1
    ensures forall n: nat :: HasRun(taken, next, n) <==> HasRun(taken, k, n) || n <= Tail(taken, next)
  {
    hide HasRun, Tail;
    forall n: nat ensures HasRun(taken, next, n) <==> HasRun(taken, k, n) || n <= Tail(taken, next) {
      RunsGrow(taken, k, n);
    }
  }

  lemma RangeStart(s: nat)
    ensures Range(s, 0) == {}
  {
  }

  lemma RangeGrow(s: nat, n: nat)
    ensures Range(s, n + 1) == Range(s, n) + {s + n} && s + n !in Range(s, n)
  {
  }

  lemma {:induction false} RangeSize(s: nat, n: nat)
    ensures |Range(s, n)| == n
  {
    if n == 0 {
      RangeStart(s);
    } else {
      RangeSize(s, n - 1);
      RangeGrow(s, n - 1);
    }
  }

  lemma SingleRange(s: nat)
    ensures Range(s, 1) == {s}
  {
    RangeStart(s);
    RangeGrow(s, 0);
  }

  lemma SingleRun(taken: set<nat>, total: nat)
    ensures HasRun(taken, total, 1) <==> exists f: nat :: f < total && f !in taken
    ensures forall f: nat :: FreeRun(taken, f, 1) <==> f !in taken
  {
    if f: nat :| f < total && f !in taken {
      assert f + 1 <= total && FreeRun(taken, f, 1);
    }
    if HasRun(taken, total, 1) {
      var s: nat :| s + 1 <= total && FreeRun(taken, s, 1);
      assert s < total && s !in taken;
    }
  }
}
