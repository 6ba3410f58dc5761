/**
 The packet replay window of wireguard_check_replay (wireguard.c): a 64-bit
 greatest number and a 32-bit bitmap of which only four positions are used,
 because the window size is taken in bytes and differences in 32 bits.
 */
module Replay {
  import opened Words

  const WINDOW: nat := 4

  datatype Window = Window(bitmap: word, counter: dword)

  /* One call on one keypair: the new window and the verdict. */
  function Check(w: Window, num: dword): (Window, bool)
  {
    if num == 0 then (w, false)
    else if num > w.counter then
      var diff := (num as int - w.counter as int) % B;
      if diff < WINDOW then (Window(Shifted(w.bitmap, diff), num), true) else (Window(1, num), true)
    else
      var diff := (w.counter as int - num as int) % B;
      if diff >= WINDOW || And(w.bitmap, Pow2(diff)) != 0 then (w, false)
      else (Window(Marked(w.bitmap, diff), w.counter), true)
  }

  /* bitmap <<= diff; bitmap |= 1 */
  function Shifted(bitmap: word, diff: nat): (r: word)
    requires diff < WINDOW
    ensures forall d :: 0 <= d < WINDOW ==> (Bit(r, d) <==> d == 0 || (diff <= d && Bit(bitmap, d - diff)))
    ensures bitmap == 0 ==> r == 1
  {
    ShiftedBits(bitmap, diff);
    Or(bitmap as int * Pow2(diff) % B, 1)
  }

  /* bitmap |= 1 << diff */
  function Marked(bitmap: word, diff: nat): (r: word)
    requires diff < WINDOW
    ensures forall d :: 0 <= d < WINDOW ==> (Bit(r, d) <==> d == diff || Bit(bitmap, d))
  {
    MarkedBits(bitmap, diff);
    Or(bitmap, Pow2(diff))
  }

  lemma SmallPowers(d: nat)
    requires d < WINDOW
    ensures Pow2(d) == (if d == 0 then 1 else if d == 1 then 2 else if d == 2 then 4 else 8)
  {
    Pow2Values();
  }

  lemma BitOfPow2(k: nat, d: nat)
    requires k < WINDOW && d < WINDOW
    ensures Bit(Pow2(k), d) <==> k == d
  {
    SmallPowers(k);
    SmallPowers(d);
  }

  lemma OrOne(x: word, y: word)
    ensures Or(x, y) < B
  {
    hide Or;
    Pow2Values();
    OrBound(x, y, 32);
  }

  lemma MarkedBits(bitmap: word, diff: nat)
    requires diff < WINDOW
    ensures Pow2(diff) < B && Or(bitmap, Pow2(diff)) < B
    ensures forall d :: 0 <= d < WINDOW ==> (Bit(Or(bitmap, Pow2(diff)), d) <==> d == diff || Bit(bitmap, d))
  {
    hide Or, Bit;
    SmallPowers(diff);
    OrOne(bitmap, Pow2(diff));
    forall d | 0 <= d < WINDOW
      ensures Bit(Or(bitmap, Pow2(diff)), d) <==> d == diff || Bit(bitmap, d)
    {
      OrBit(bitmap, Pow2(diff), d);
      BitOfPow2(diff, d);
    }
  }

  lemma ShiftedBits(bitmap: word, diff: nat)
    requires diff < WINDOW
    ensures 0 <= bitmap as int * Pow2(diff) % B && Or(bitmap as int * Pow2(diff) % B, 1) < B
    ensures
      var r := Or(bitmap as int * Pow2(diff) % B, 1);
      && (forall d :: 0 <= d < WINDOW ==> (Bit(r, d) <==> d == 0 || (diff <= d && Bit(bitmap, d - diff))))
      && (bitmap == 0 ==> r == 1)
  {
    hide Or, Bit;
    var x := bitmap as int * Pow2(diff) % B;
    OrOne(x, 1);
    forall d | 0 <= d < WINDOW
      ensures Bit(Or(x, 1), d) <==> d == 0 || (diff <= d && Bit(bitmap, d - diff))
    {
      OrBit(x, 1, d);
      BitOfPow2(0, d);
      ShiftedBit(bitmap, diff, d);
    }
    if bitmap == 0 {
      OrZeroOne();
    }
  }

  lemma OrZeroOne()
    ensures Or(0, 1) == 1
  {
  }

  lemma ShiftedBit(bitmap: word, diff: nat, d: nat)
    requires diff < WINDOW && d < WINDOW
    ensures Bit(bitmap as int * Pow2(diff) % B, d) <==> diff <= d && Bit(bitmap, d - diff)
  {
    hide Bit;
    Pow2Values();
    var y := bitmap as int * Pow2(diff);
    BitLow(y % B, y / B, 32, d);
    assert y == y % B + Pow2(32) * (y / B);
    ZeroBit(d);
    if d < diff {
      BitLow(0, bitmap, diff, d);
    } else {
      BitHigh(0, bitmap, diff, d - diff);
    }
    assert y == 0 + Pow2(diff) * bitmap;
  }

  // ---------- runs on one keypair ----------

  const FRESH: Window := Window(0, 0)

  /* The window after a sequence of calls. */
  function After(s: seq<dword>): Window
  {
    if s == [] then FRESH else Check(After(s[..|s| - 1]), s[|s| - 1]).0
  }

  /* The verdict on the i-th number. */
  predicate Accepts(s: seq<dword>, i: nat)
    requires i < |s|
  {
    Check(After(s[..i]), s[i]).1
  }

  /* The numbers accepted so far. */
  function Accepted(s: seq<dword>): set<dword>
  {
    if s == [] then {}
    else Accepted(s[..|s| - 1]) + (if Accepts(s, |s| - 1) then {s[|s| - 1]} else {})
  }

  // ---------- what the window means ----------

  ghost predicate IsMax(m: dword, acc: set<dword>)
  {
    (forall x :: x in acc ==> x <= m) && (if acc == {} then m == 0 else m in acc)
  }

  /* The counter is the greatest accepted number and bit d says whether counter - d was accepted. */
  ghost predicate Means(w: Window, acc: set<dword>)
  {
    && 0 !in acc && IsMax(w.counter, acc)
    && forall d :: 0 <= d < WINDOW ==> (Bit(w.bitmap, d) <==> d <= w.counter && w.counter - d in acc)
  }

  /* The rule the window implements. */
  ghost predicate Admissible(acc: set<dword>, max: dword, num: dword)
  {
    num != 0 && (num > max || (max - num < WINDOW && num !in acc))
  }

  /* One call decides by the rule and records what it accepted. */
  ghost predicate Right(w: Window, acc: set<dword>, num: dword)
  {
    var (w', ok) := Check(w, num);
    (ok <==> Admissible(acc, w.counter, num)) && Means(w', if ok then acc + {num} else acc)
  }

  /* The 32-bit difference of a number to the counter tells the truth, or does no harm: it is the whole
     difference, or falls outside the window, or the bits it would shift in or look at are as they
     should be. */
  predicate Faithful(w: Window, num: dword)
  {
    var d := if num > w.counter then num - w.counter else w.counter - num;
    var r := d % B;
    || num == 0 || d < B || r >= WINDOW
    || (if num > w.counter then forall j :: 0 <= j && 0 < r + j < WINDOW ==> !Bit(w.bitmap, j) else Bit(w.bitmap, r))
  }

  lemma FreshMeans()
    ensures Means(FRESH, {})
  {
    forall d | 0 <= d < WINDOW
      ensures !Bit(0, d)
    {
      ZeroBit(d);
    }
  }

  /* For every window, every set it means and every number: the call is right exactly when the
     difference is faithful. */
  lemma CheckExactly(w: Window, acc: set<dword>, num: dword)
    requires Means(w, acc)
    ensures Right(w, acc, num) <==> Faithful(w, num)
  {
    hide And, Bit, Shifted, Marked, Pow2;
    if num == 0 {
    } else if num > w.counter {
      NewExactly(w, acc, num);
    } else {
      OldExactly(w, acc, num);
    }
  }

  lemma NewExactly(w: Window, acc: set<dword>, num: dword)
    requires Means(w, acc) && w.counter < num
    ensures Right(w, acc, num) <==> Faithful(w, num)
  {
    OneBits();
    hide And, Bit, Shifted, Marked, Pow2;
    var d, r, w', acc' := num - w.counter, (num - w.counter) % B, Check(w, num).0, acc + {num};
    assert IsMax(num, acc');
    if d < B || r >= WINDOW {
      forall k | 0 <= k < WINDOW
        ensures Bit(w'.bitmap, k) <==> k <= num && num - k in acc'
      {
        if k > 0 && num - k >= 0 {
          assert num - k in acc' <==> num - k in acc;
        }
      }
    } else {
      FarExactly(w, acc, num);
    }
  }

  /* A leap of 2^32 or more whose low 32 bits fall inside the window shifts old bits in. */
  lemma FarExactly(w: Window, acc: set<dword>, num: dword)
    requires Means(w, acc) && num >= w.counter + B && (num - w.counter) % B < WINDOW
    ensures Right(w, acc, num) <==> Faithful(w, num)
  {
    hide And, Bit, Marked, Pow2, Or;
    var r, w', acc' := (num - w.counter) % B, Check(w, num).0, acc + {num};
    assert w'.bitmap == Shifted(w.bitmap, r);
    hide Shifted;
    assert IsMax(num, acc');
    forall k | 0 < k < WINDOW
      ensures num - k !in acc' && (Bit(w'.bitmap, k) <==> r <= k && Bit(w.bitmap, k - r))
    {
      assert num - k > w.counter;
    }
    if Faithful(w, num) {
      forall k | 0 <= k < WINDOW
        ensures Bit(w'.bitmap, k) <==> k <= num && num - k in acc'
      {
        if r <= k {
          assert 0 < r + (k - r) < WINDOW ==> !Bit(w.bitmap, k - r);
        }
      }
    } else {
      var j :| 0 <= j && 0 < r + j < WINDOW && Bit(w.bitmap, j);
      assert Bit(w'.bitmap, r + j) && num - (r + j) !in acc';
    }
  }

  lemma OneBits()
    ensures forall d :: 0 <= d < WINDOW ==> (Bit(1, d) <==> d == 0)
  {
    forall d | 0 <= d < WINDOW
      ensures Bit(1, d) <==> d == 0
    {
      SmallPowers(0);
      BitOfPow2(0, d);
    }
  }

  lemma OldExactly(w: Window, acc: set<dword>, num: dword)
    requires Means(w, acc) && 0 < num <= w.counter
    ensures Right(w, acc, num) <==> Faithful(w, num)
  {
    hide And, Bit, Shifted, Marked, Pow2;
    var diff := (w.counter as int - num as int) % B;
    if diff < WINDOW {
      AndPow2(w.bitmap, diff);
    }
    assert Bit(w.bitmap, 0);
  }

  /* All numbers of a sequence are told apart when their turn comes. */
  predicate RunFaithful(s: seq<dword>)
  {
    forall i :: 0 <= i < |s| ==> Faithful(After(s[..i]), s[i])
  }

  /* Over every such sequence, however large the numbers, the window means what was accepted. */
  lemma {:induction false} RunMeans(s: seq<dword>)
    requires RunFaithful(s)
    ensures Means(After(s), Accepted(s))
  {
    hide Check, Means, Faithful;
    if s == [] {
      FreshMeans();
    } else {
      var n := |s| - 1;
      assert forall i :: 0 <= i < n ==> s[..n][..i] == s[..i];
      RunMeans(s[..n]);
      CheckExactly(After(s[..n]), Accepted(s[..n]), s[n]);
      assert Accepted(s) == if Accepts(s, n) then Accepted(s[..n]) + {s[n]} else Accepted(s[..n]);
    }
  }

  /* A number is accepted exactly when it is non-zero and exceeds everything accepted before,
     or lies less than four below the greatest and was not accepted before. */
  lemma AcceptanceRule(s: seq<dword>, i: nat)
    requires i < |s| && RunFaithful(s)
    ensures
      var acc := Accepted(s[..i]);
      && IsMax(After(s[..i]).counter, acc)
      && (Accepts(s, i) <==> Admissible(acc, After(s[..i]).counter, s[i]))
  {
    hide Check, Faithful;
    assert forall j :: 0 <= j < i ==> s[..i][..j] == s[..j];
    RunMeans(s[..i]);
    CheckExactly(After(s[..i]), Accepted(s[..i]), s[i]);
  }

  /* The calls of a sequence are right from first to last exactly when it is faithful. */
  lemma RunRightExactly(s: seq<dword>)
    ensures (forall i :: 0 <= i < |s| ==> Right(After(s[..i]), Accepted(s[..i]), s[i])) <==> RunFaithful(s)
  {
    hide Check, Faithful, Means, Right;
    if RunFaithful(s) {
      forall i | 0 <= i < |s|
        ensures Right(After(s[..i]), Accepted(s[..i]), s[i])
      {
        assert forall j :: 0 <= j < i ==> s[..i][..j] == s[..j];
        RunMeans(s[..i]);
        CheckExactly(After(s[..i]), Accepted(s[..i]), s[i]);
      }
    } else {
      RightMeans(s, |s|);
    }
  }

  /* As long as the calls are right, the differences are faithful. */
  lemma {:induction false} RightMeans(s: seq<dword>, n: nat)
    requires n <= |s|
    ensures (forall i :: 0 <= i < n ==> Right(After(s[..i]), Accepted(s[..i]), s[i]))
        ==> Means(After(s[..n]), Accepted(s[..n])) && forall i :: 0 <= i < n ==> Faithful(After(s[..i]), s[i])
    decreases n
  {
    hide Check, Faithful, Means, After, Accepted;
    if n == 0 {
      NothingYet();
      assert s[..0] == [];
    } else if forall i :: 0 <= i < n ==> Right(After(s[..i]), Accepted(s[..i]), s[i]) {
      RightMeans(s, n - 1);
      CheckExactly(After(s[..n - 1]), Accepted(s[..n - 1]), s[n - 1]);
      AfterNext(s, n - 1);
    }
  }

  lemma NothingYet()
    ensures Means(After([]), Accepted([]))
  {
    FreshMeans();
  }

  lemma AfterNext(s: seq<dword>, n: nat)
    requires n < |s|
    ensures
      var (w, ok) := Check(After(s[..n]), s[n]);
      After(s[..n + 1]) == w && Accepted(s[..n + 1]) == if ok then Accepted(s[..n]) + {s[n]} else Accepted(s[..n])
  {
    hide Check;
    assert s[..n + 1][..n] == s[..n];
  }

  // ---------- numbers that are always told apart ----------

  /* The largest bound under which all numbers are. */
  const LIMIT: dword := 0x1_0000_0001

  lemma LowFaithful(w: Window, acc: set<dword>, num: dword)
    requires Means(w, acc) && w.counter <= LIMIT && num <= LIMIT
    ensures Faithful(w, num) && Check(w, num).0.counter <= LIMIT
  {
    hide And, Bit, Shifted, Marked, Pow2;
    assert forall d :: 0 <= d < WINDOW && Bit(w.bitmap, d) ==> d <= w.counter && w.counter - d in acc;
    if num != 0 && num <= w.counter {
      assert Bit(w.bitmap, 0);
    }
  }

  lemma {:induction false} LowRunFaithful(s: seq<dword>)
    requires forall i :: 0 <= i < |s| ==> s[i] <= LIMIT
    ensures RunFaithful(s) && After(s).counter <= LIMIT
  {
    hide Check, Means, Faithful;
    if s != [] {
      var n := |s| - 1;
      LowRunFaithful(s[..n]);
      RunMeans(s[..n]);
      LowFaithful(After(s[..n]), Accepted(s[..n]), s[n]);
      forall i | 0 <= i < |s|
        ensures Faithful(After(s[..i]), s[i])
      {
        if i < n {
          assert s[..n][..i] == s[..i];
        }
      }
    }
  }

  // ---------- no number is accepted twice ----------

  ghost predicate AcceptsOnce(s: seq<dword>)
  {
    forall i, j :: 0 <= i < j < |s| && Accepts(s, i) && Accepts(s, j) ==> s[i] != s[j]
  }

  /* No run with numbers up to m accepts a number twice. */
  ghost predicate OnceOnlyUpTo(m: dword)
  {
    forall s: seq<dword> :: (forall i :: 0 <= i < |s| ==> s[i] <= m) ==> AcceptsOnce(s)
  }

  lemma {:induction false} AcceptedContains(s: seq<dword>, i: nat, n: nat)
    requires i < n <= |s| && Accepts(s, i)
    ensures s[i] in Accepted(s[..n])
    decreases n
  {
    hide Check, After;
    if i == n - 1 {
      assert s[..n][..n - 1] == s[..i] && s[..n][n - 1] == s[i];
    } else {
      AcceptedContains(s, i, n - 1);
      assert s[..n][..n - 1] == s[..n - 1];
    }
  }

  lemma RunAcceptsOnce(s: seq<dword>)
    requires RunFaithful(s)
    ensures AcceptsOnce(s)
  {
    hide Check, After, Accepted, Accepts, RunFaithful;
    forall i, j | 0 <= i < j < |s| && Accepts(s, i) && Accepts(s, j)
      ensures s[i] != s[j]
    {
      AcceptanceRule(s, j);
      AcceptedContains(s, i, j);
    }
  }

  /* Past the limit a number can be accepted again: 1, 100, 2^32 + 2, 1. */
  const WRAPPED: seq<dword> := [1, 100, 0x1_0000_0002, 1]

  /* The four calls, one by one. */
  lemma WrappedCalls()
    ensures Check(FRESH, 1) == (Window(1, 1), true) && Check(Window(1, 1), 100) == (Window(1, 100), true)
    ensures Check(Window(1, 100), 0x1_0000_0002) == (Window(1, 0x1_0000_0002), true)
    ensures Check(Window(1, 0x1_0000_0002), 1).1
  {
    assert Shifted(0, 1) == 1;
    assert Pow2(1) == 2 && And(1, 2) == 0;
  }

  lemma WrappedAcceptsTwice()
    ensures Accepts(WRAPPED, 0) && Accepts(WRAPPED, 3) && !AcceptsOnce(WRAPPED)
  {
    hide Check;
    var s := WRAPPED;
    assert s[..0] == [] && s[..1] == [1] && s[..2] == [1, 100] && s[..3] == [1, 100, 0x1_0000_0002];
    assert [1][..0] == [] && [1, 100][..1] == [1] && [1, 100, 0x1_0000_0002][..2] == [1, 100];
    WrappedCalls();
  }

  /* The exact reach of replay protection. */
  lemma OnceOnlyExactly(m: dword)
    ensures OnceOnlyUpTo(m) <==> m <= LIMIT
  {
    hide AcceptsOnce;
    if m <= LIMIT {
      forall s: seq<dword> | forall i :: 0 <= i < |s| ==> s[i] <= m
        ensures AcceptsOnce(s)
      {
        LowRunFaithful(s);
        RunAcceptsOnce(s);
      }
    } else {
      WrappedAcceptsTwice();
      assert forall i :: 0 <= i < |WRAPPED| ==> WRAPPED[i] <= m;
    }
  }
}
