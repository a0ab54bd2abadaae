/** The 64-bit sliding bitmap both host replay windows keep, and the set it stands for.

    The reference is the set of all numbers accepted so far. A number is fresh when it is not in
    the set and less than 64 behind every member (section 3.4.3 of RFC 4303 describes this shape).
    The bitmap keeps only the greatest member and the 64 numbers up to it.
*/
module ReplayBitmap {
  import opened Bits

  ghost predicate IsFresh(accepted: set<nat>, num: nat) {
    num !in accepted && forall a :: a in accepted ==> a < num + 64
  }

  ghost function Accept(accepted: set<nat>, num: nat): set<nat> {
    if IsFresh(accepted, num) then accepted + {num} else accepted
  }

  datatype Window = Unset | Window(highest: nat, bitmap: nat)

  datatype Verdict = Verdict(ok: bool, window: Window)

  /** `check` on a sequence number, with the bigint operators of the source. */
  function Check(w: Window, num: nat): Verdict {
    match w
    case Unset => Verdict(true, Window(num, 1))
    case Window(highest, bitmap) =>
      if num > highest then
        var shift := num - highest;
        Verdict(true, Window(num, if shift >= 64 then 1 else And(Or(Shl(bitmap, shift), 1), Pow2(64) - 1)))
      else
        var delta := highest - num;
        if delta >= 64 then Verdict(false, w)
        else
          var mask := Shl(1, delta);
          if And(bitmap, mask) != 0 then Verdict(false, w)
          else Verdict(true, Window(highest, Or(bitmap, mask)))
  }

  /** The window `w` stands for the set `accepted`: its greatest member is `highest`, and bit `i`
      of the bitmap, for `i` below 64, says whether `highest - i` is a member. */
  ghost predicate Tracks(w: Window, accepted: set<nat>) {
    match w
    case Unset => accepted == {}
    case Window(highest, bitmap) =>
      && highest in accepted
      && (forall a :: a in accepted ==> a <= highest)
      && (forall i: nat :: Bit(bitmap, i) <==> i < 64 && i <= highest && highest - i in accepted)
  }

  lemma TrackedBitmapFits(w: Window, accepted: set<nat>)
    requires Tracks(w, accepted) && w.Window?
    ensures w.bitmap < Pow2(64)
  {
    NoHighBitIsSmall(w.bitmap, 64);
  }

  /** The set determines the window. */
  lemma TrackingIsFunctional(v: Window, w: Window, accepted: set<nat>)
    requires Tracks(v, accepted) && Tracks(w, accepted)
    ensures v == w
  {
    if v.Window? {
      forall i: nat ensures Bit(v.bitmap, i) == Bit(w.bitmap, i) {}
      SameBits(v.bitmap, w.bitmap);
    }
  }

  lemma OneBit(i: nat)
    ensures Bit(1, i) == (i == 0)
  {
    PowBit(0, i);
  }

  lemma SlideBits(bitmap: nat, shift: nat, i: nat)
    ensures Bit(And(Or(Shl(bitmap, shift), 1), Pow2(64) - 1), i)
         == (i < 64 && (i == 0 || (i >= shift && Bit(bitmap, i - shift))))
  {
    OnesBit(64, i);
    ZipBit(AndOp, Or(Shl(bitmap, shift), 1), Pow2(64) - 1, i);
    ZipBit(OrOp, Shl(bitmap, shift), 1, i);
    ShlBit(bitmap, shift, i);
    OneBit(i);
  }

  lemma MarkBits(bitmap: nat, delta: nat, i: nat)
    ensures Bit(Or(bitmap, Shl(1, delta)), i) == (i == delta || Bit(bitmap, i))
    ensures And(bitmap, Shl(1, delta)) != 0 <==> Bit(bitmap, delta)
  {
    ShlIsScale(1, delta);
    ZipBit(OrOp, bitmap, Pow2(delta), i);
    PowBit(delta, i);
    MaskOneBit(bitmap, delta);
  }

  lemma AdvanceRefinesSet(w: Window, accepted: set<nat>, num: nat)
    requires Tracks(w, accepted) && w.Window? && num > w.highest
    ensures Check(w, num).ok && IsFresh(accepted, num)
    ensures Tracks(Check(w, num).window, accepted + {num})
  {
    var next, shift := Check(w, num).window, num - w.highest;
    forall i: nat
      ensures Bit(next.bitmap, i) <==> i < 64 && i <= num && num - i in accepted + {num}
    {
      if shift >= 64 {
        OneBit(i);
      } else {
        SlideBits(w.bitmap, shift, i);
        if i >= shift {
          var j := i - shift;
          assert Bit(w.bitmap, j) <==> j < 64 && j <= w.highest && w.highest - j in accepted;
        }
      }
    }
  }

  lemma MarkRefinesSet(w: Window, accepted: set<nat>, num: nat)
    requires Tracks(w, accepted) && w.Window? && num <= w.highest
    ensures Check(w, num).ok <==> IsFresh(accepted, num)
    ensures Tracks(Check(w, num).window, Accept(accepted, num))
  {
    var delta := w.highest - num;
    MarkBits(w.bitmap, delta, 0);
    assert Bit(w.bitmap, delta) <==> delta < 64 && num in accepted;
    if delta < 64 && !Bit(w.bitmap, delta) {
      var next := Check(w, num).window;
      forall i: nat
        ensures Bit(next.bitmap, i) <==> i < 64 && i <= w.highest && w.highest - i in accepted + {num}
      {
        MarkBits(w.bitmap, delta, i);
      }
    }
  }

  /** One `check`: the verdict is freshness, and the window keeps standing for the set. */
  lemma CheckRefinesSet(w: Window, accepted: set<nat>, num: nat)
    requires Tracks(w, accepted)
    ensures Check(w, num).ok <==> IsFresh(accepted, num)
    ensures Tracks(Check(w, num).window, Accept(accepted, num))
  {
    if w.Unset? {
      forall i: nat ensures Bit(1, i) <==> i == 0 { OneBit(i); }
    } else if num > w.highest {
      AdvanceRefinesSet(w, accepted, num);
    } else {
      MarkRefinesSet(w, accepted, num);
    }
  }

  // ---------- runs ----------

  /** The window after a run of checks. */
  function After(w: Window, run: seq<nat>): Window {
    if run == [] then w else Check(After(w, run[..|run| - 1]), run[|run| - 1]).window
  }

  /** The set of numbers a fresh reference accepts over a run. */
  ghost function Accepted(run: seq<nat>): set<nat> {
    if run == [] then {} else Accept(Accepted(run[..|run| - 1]), run[|run| - 1])
  }

  /** Over every run from the initial window: bit `i` of the bitmap is set exactly when
      `highest - i` has been accepted, the bitmap stays below 2^64, and the next number is accepted
      exactly when it is fresh. */
  lemma {:induction false} WindowRefinesSet(run: seq<nat>, next: nat)
    ensures Tracks(After(Unset, run), Accepted(run))
    ensures After(Unset, run).Window? ==> After(Unset, run).bitmap < Pow2(64)
    ensures Check(After(Unset, run), next).ok <==> IsFresh(Accepted(run), next)
  {
    if run != [] {
      WindowRefinesSet(run[..|run| - 1], run[|run| - 1]);
      CheckRefinesSet(After(Unset, run[..|run| - 1]), Accepted(run[..|run| - 1]), run[|run| - 1]);
    }
    CheckRefinesSet(After(Unset, run), Accepted(run), next);
    if After(Unset, run).Window? { TrackedBitmapFits(After(Unset, run), Accepted(run)); }
  }

  /** What is accepted was presented; what was presented is accepted or lies 64 or more behind
      something accepted. */
  lemma {:induction false} AcceptedWerePresented(run: seq<nat>)
    ensures forall a :: a in Accepted(run) ==> a in run
    ensures forall a :: a in run ==> a in Accepted(run) || exists b :: b in Accepted(run) && b >= a + 64
  {
    if run != [] {
      var n := |run| - 1;
      AcceptedWerePresented(run[..n]);
      assert run == run[..n] + [run[n]];
      forall a | a in run ensures a in Accepted(run) || exists b :: b in Accepted(run) && b >= a + 64 {
        if a in run[..n] && a !in Accepted(run[..n]) {
          var b :| b in Accepted(run[..n]) && b >= a + 64;
          assert b in Accepted(run);
        }
      }
    }
  }

  /** A number is fresh after a run exactly when it is not among those presented, accepted or not,
      and less than 64 behind each of them. */
  lemma FreshExactly(run: seq<nat>, num: nat)
    ensures IsFresh(Accepted(run), num) <==> forall a :: a in run ==> a != num && a < num + 64
  {
    AcceptedWerePresented(run);
  }

  ghost predicate AllAccepted(run: seq<nat>) {
    forall k :: 0 <= k < |run| ==> Check(After(Unset, run[..k]), run[k]).ok
  }

  /** The `k`-th number is none of those before it, and less than 64 behind each of them. */
  ghost predicate IsTimely(run: seq<nat>, k: nat)
    requires k < |run|
  {
    forall j :: 0 <= j < k ==> run[j] != run[k] && run[j] < run[k] + 64
  }

  lemma AcceptedIsTimely(run: seq<nat>, k: nat)
    requires k < |run|
    ensures Check(After(Unset, run[..k]), run[k]).ok <==> IsTimely(run, k)
  {
    var before := run[..k];
    WindowRefinesSet(before, run[k]);
    FreshExactly(before, run[k]);
    assert forall j :: 0 <= j < k ==> run[j] == before[j] && before[j] in before;
    assert forall a :: a in before ==> exists j :: 0 <= j < k && run[j] == a;
  }

  /** A fresh window accepts every number of an arrival order exactly when no number repeats and
      each is less than 64 behind the greatest before it. */
  lemma TolerantOrders(run: seq<nat>)
    ensures AllAccepted(run) <==> forall k :: 0 <= k < |run| ==> IsTimely(run, k)
  {
    forall k | 0 <= k < |run| ensures Check(After(Unset, run[..k]), run[k]).ok <==> IsTimely(run, k) {
      AcceptedIsTimely(run, k);
    }
  }
}
