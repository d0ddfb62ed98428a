/**
 AFLFast's table of favoured test cases: for every bitmap entry the best test case that
 reaches it, with a reference count and a minimized trace per test case.
 */
module AflFast {
  import opened Grammars
  import opened Arithmetic
  import opened Bitmaps

  const TWO_63 := 0x8000_0000_0000_0000
  const TWO_64 := 0x1_0000_0000_0000_0000

  /** Unsigned 64-bit numbers. */
  type U64 = x: nat | x < TWO_64

  ghost predicate IsPower(n: nat) {
    exists k: nat :: n == Power(k)
  }

  /** `p` is the smallest power of two that is at least `val`. */
  ghost predicate IsNextP2(val: nat, p: nat) {
    IsPower(p) && val <= p && forall q :: IsPower(q) && val <= q ==> p <= q
  }

  lemma PowerAt63()
    ensures Power(63) == TWO_63
  {
    SmallPowers();
    hide Power;
    PowerProduct(4, 3, 16, 8);
    PowerProduct(4, 4, 16, 16);
    PowerProduct(8, 7, 256, 128);
    PowerProduct(8, 8, 256, 256);
    PowerProduct(16, 15, 65536, 32768);
    PowerProduct(16, 16, 65536, 65536);
    PowerProduct(32, 31, 0x1_0000_0000, 0x8000_0000);
  }

  lemma PowerProduct(j: nat, k: nat, a: nat, b: nat)
    requires Power(j) == a && Power(k) == b
    ensures Power(j + k) == a * b
  {
    PowerAdd(j, k);
  }

  lemma SmallPowers()
    ensures Power(3) == 8 && Power(4) == 16
  {
    assert Power(1) == 2;
    assert Power(2) == 4;
  }

  /** A shift to the left by one in 64 bits. */
  function Shift(x: U64): U64 {
    x * 2 % TWO_64
  }

  lemma ShiftIs(x: U64)
    ensures Shift(x) == if x < TWO_63 then 2 * x else 2 * x - TWO_64
  {
  }

  /** One, after `k` shifts. */
  function Shifted(k: nat): U64 {
    if k == 0 then 1 else Shift(Shifted(k - 1))
  }

  lemma {:induction false} ShiftedIs(k: nat)
    ensures Shifted(k) == if k < 64 then Power(k) else 0
    ensures Shifted(k) <= TWO_63
  {
    hide Shift;
    PowerAt63();
    if k > 0 {
      ShiftedIs(k - 1);
      ShiftIs(Shifted(k - 1));
      if k <= 63 { BelowTop(k - 1); }
    }
  }

  /**
   The loop of `NextP2`, which shifts until it reaches `val`, ends exactly for values up to
   2^63; for larger ones the variable becomes zero and stays so.
   */
  lemma NextP2EndsIff(val: U64)
    ensures (exists k: nat :: val <= Shifted(k)) <==> val <= TWO_63
  {
    if val <= TWO_63 {
      PowerAt63();
      ShiftedIs(63);
      assert val <= Shifted(63);
    }
    forall k: nat ensures Shifted(k) <= TWO_63 {
      ShiftedIs(k);
    }
  }

  /** The smallest power of two not below `val`. */
  method NextP2(val: U64) returns (ret: U64)
    requires val <= TWO_63
    ensures IsNextP2(val, ret)
  {
    ret := 1;
    ghost var k: nat := 0;
    PowerAt63();
    while val > ret
      invariant ret == Power(k) && ret <= TWO_63
      invariant k > 0 ==> Power(k - 1) < val
      decreases val - ret
    {
      BelowTop(k);
      ShiftIs(ret);
      ret := Shift(ret);
      k := k + 1;
    }
    SmallestPower(val, k);
  }

  lemma BelowTop(k: nat)
    requires k < 63 || Power(k) < TWO_63
    ensures k < 63 && 2 * Power(k) <= TWO_63 && Power(k + 1) == 2 * Power(k)
  {
    PowerAt63();
    if k > 63 { PowerMono(63, k); }
    if k < 63 { PowerMono(k, 63); }
  }

  lemma SmallestPower(val: nat, k: nat)
    requires val <= Power(k) && (k > 0 ==> Power(k - 1) < val)
    ensures IsNextP2(val, Power(k))
  {
    forall q | IsPower(q) && val <= q ensures Power(k) <= q {
      var j: nat :| q == Power(j);
      if j < k - 1 { PowerMono(j, k - 1); }
      if k < j { PowerMono(k, j); }
    }
  }

  /** The smallest power is unique, so it is a function of the number. */
  lemma NextP2Unique(val: nat, p: nat, q: nat)
    requires IsNextP2(val, p) && IsNextP2(val, q)
    ensures p == q
  {
  }

  // ---------------------------------------------------------------- test cases

  class Testcase {
    var nFuzz: U64
    var execUs: U64
    var inputLen: nat
    var tcRef: nat
    var traceMini: Option<seq<bool>>

    constructor (nFuzz: U64, execUs: U64, inputLen: nat)
      ensures this.nFuzz == nFuzz && this.execUs == execUs && this.inputLen == inputLen
      ensures tcRef == 0 && traceMini == None
    {
      this.nFuzz, this.execUs, this.inputLen := nFuzz, execUs, inputLen;
      tcRef, traceMini := 0, None;
    }

    /** Execution time times input length, as the 64-bit product. */
    function FavFactor(): U64
      reads `execUs, `inputLen
    {
      execUs * inputLen % TWO_64
    }
  }

  /** `a` is better than `b`, or as good: fuzzed less often, or as often and no larger. */
  ghost predicate AtLeastAsGood(a: Testcase, b: Testcase)
    reads a`nFuzz, a`execUs, a`inputLen, b`nFuzz, b`execUs, b`inputLen
  {
    exists p, q :: IsNextP2(a.nFuzz, p) && IsNextP2(b.nFuzz, q) &&
      (p < q || (p == q && a.execUs * a.inputLen % TWO_64 <= b.execUs * b.inputLen % TWO_64))
  }

  /** The number of entries that hold `c`. */
  function Slots(top: seq<Testcase?>, c: Testcase): nat {
    if top == [] then 0 else Slots(top[..|top| - 1], c) + if top[|top| - 1] == c then 1 else 0
  }

  lemma {:induction false} SlotsUpdate(top: seq<Testcase?>, i: nat, x: Testcase?, c: Testcase)
    requires i < |top|
    ensures Slots(top[i := x], c) + (if top[i] == c then 1 else 0) == Slots(top, c) + if x == c then 1 else 0
  {
    var last := |top| - 1;
    if i == last {
      assert top[i := x][..last] == top[..last];
    } else {
      assert top[i := x][..last] == top[..last][i := x];
      SlotsUpdate(top[..last], i, x, c);
    }
  }

  lemma {:induction false} SlotsHeld(top: seq<Testcase?>, i: nat, c: Testcase)
    requires i < |top| && top[i] == c
    ensures Slots(top, c) > 0
  {
    if i < |top| - 1 { SlotsHeld(top[..|top| - 1], i, c); }
  }

  function MiniOf(traceBits: seq<Byte>): seq<bool> {
    seq(|traceBits|, j requires 0 <= j < |traceBits| => traceBits[j] != 0)
  }

  /** The minimized trace has one bit for each byte of the trace, set exactly where the byte is not zero. */
  ghost predicate IsMini(traceBits: seq<Byte>, mini: seq<bool>) {
    |mini| == |traceBits| && forall j :: 0 <= j < |mini| ==> (mini[j] <==> traceBits[j] != 0)
  }

  /** The test case has recorded this trace. */
  ghost predicate Recorded(c: Testcase, traceBits: seq<Byte>)
    reads c`traceMini
  {
    c.traceMini.Some? && IsMini(traceBits, c.traceMini.value)
  }

  /** Every test case knows how many entries hold it, and has a trace exactly if some do. */
  ghost predicate Counted(top: seq<Testcase?>, cases: set<Testcase>)
    reads cases
  {
    && (forall i :: 0 <= i < |top| && top[i] != null ==> top[i] in cases)
    && (forall c :: c in cases ==> c.tcRef == Slots(top, c) && (c.traceMini.Some? <==> c.tcRef > 0))
  }

  /** The newcomer takes an entry with this holder: it has none, or one that is not strictly better. */
  ghost predicate Takes(newcomer: Testcase, holder: Testcase?)
    reads newcomer, if holder == null then {} else {holder}
  {
    holder == null || AtLeastAsGood(newcomer, holder)
  }

  /** What an entry holds after a test case with this trace: the newcomer, if traced and it takes the entry. */
  ghost predicate Settled(was: Testcase?, now: Testcase?, newcomer: Testcase, takes: bool, traced: bool) {
    now == if traced && takes then newcomer else was
  }

  /** An empty table and new test cases agree. */
  lemma {:induction false} StartsCounted(top: seq<Testcase?>, cases: set<Testcase>)
    requires forall i :: 0 <= i < |top| ==> top[i] == null
    requires forall c :: c in cases ==> c.tcRef == 0 && c.traceMini == None
    ensures Counted(top, cases)
  {
    if top != [] {
      StartsCounted(top[..|top| - 1], cases);
    }
  }

  class AFLFastState {
    const topRated: array<Testcase?>
    var scoreChanged: bool

    constructor (mapSize: nat)
      ensures fresh(topRated) && topRated.Length == mapSize && !scoreChanged
      ensures forall i :: 0 <= i < mapSize ==> topRated[i] == null
    {
      topRated := new Testcase?[mapSize](_ => null);
      scoreChanged := false;
    }

    /** Offers a test case to every entry its trace reaches. */
    method UpdateBitmapScoreWithRawTrace(ghost cases: set<Testcase>, testcase: Testcase, traceBits: seq<Byte>, mapSize: nat)
      requires testcase in cases && Counted(topRated[..], cases)
      requires mapSize <= |traceBits| == topRated.Length
      requires forall c :: c in cases ==> c.nFuzz <= TWO_63
      modifies topRated, `scoreChanged, cases`tcRef, cases`traceMini
      ensures Counted(topRated[..], cases)
      ensures forall i :: 0 <= i < topRated.Length ==>
        Settled(old(topRated[i]), topRated[i], testcase, old(Takes(testcase, topRated[i])), i < mapSize && traceBits[i] != 0)
      ensures scoreChanged <==>
        (old(scoreChanged) || exists i :: 0 <= i < mapSize && traceBits[i] != 0 && topRated[i] == testcase)
      ensures forall c :: c in cases && c != testcase && c.tcRef > 0 ==> c.traceMini == old(c.traceMini)
      ensures testcase.traceMini in {None, old(testcase.traceMini)} || Recorded(testcase, traceBits)
      ensures old(testcase.tcRef) == 0 && testcase.tcRef > 0 ==> Recorded(testcase, traceBits)
    {
      hide Slots, IsMini, IsNextP2, Counted;
      var fuzzP2 := NextP2(testcase.nFuzz);
      var favFactor := testcase.FavFactor();
      var i := 0;
      while i < mapSize
        invariant 0 <= i <= mapSize && Counted(topRated[..], cases)
        invariant forall j :: 0 <= j < topRated.Length ==>
          Settled(old(topRated[j]), topRated[j], testcase, old(Takes(testcase, topRated[j])), j < i && traceBits[j] != 0)
        invariant scoreChanged <==>
          (old(scoreChanged) || exists j :: 0 <= j < i && traceBits[j] != 0 && topRated[j] == testcase)
        invariant forall c :: c in cases && c != testcase && c.tcRef > 0 ==> c.traceMini == old(c.traceMini)
        invariant testcase.traceMini in {None, old(testcase.traceMini)} || Recorded(testcase, traceBits)
        invariant old(testcase.tcRef) == 0 && testcase.tcRef > 0 ==> Recorded(testcase, traceBits)
      {
        if traceBits[i] != 0 {
          Offer(cases, testcase, traceBits, i, fuzzP2, favFactor);
        }
        i := i + 1;
      }
    }

    /** One turn of the loop: the newcomer takes the entry unless its holder is better. */
    method Offer(ghost cases: set<Testcase>, testcase: Testcase, traceBits: seq<Byte>, i: nat, fuzzP2: U64, favFactor: U64)
      requires testcase in cases && Counted(topRated[..], cases)
      requires i < |traceBits| == topRated.Length
      requires forall c :: c in cases ==> c.nFuzz <= TWO_63
      requires IsNextP2(testcase.nFuzz, fuzzP2) && favFactor == testcase.FavFactor()
      modifies topRated, `scoreChanged, cases`tcRef, cases`traceMini
      ensures Counted(topRated[..], cases)
      ensures topRated[..] == old(topRated[..])[i := topRated[i]]
      ensures Settled(old(topRated[i]), topRated[i], testcase, old(Takes(testcase, topRated[i])), true)
      ensures scoreChanged <==> old(scoreChanged) || topRated[i] == testcase
      ensures forall c :: c in cases && c != testcase && c.tcRef > 0 ==> c.traceMini == old(c.traceMini)
      ensures forall c :: c in cases && c != testcase ==> c.tcRef <= old(c.tcRef)
      ensures testcase.traceMini == old(testcase.traceMini) || Recorded(testcase, traceBits)
      ensures old(testcase.tcRef) == 0 && testcase.tcRef > 0 ==> Recorded(testcase, traceBits)
    {
      hide Slots, IsNextP2, IsMini, AtLeastAsGood;
      var holder := topRated[i];
      if holder != null {
        var topFuzzP2 := NextP2(holder.nFuzz);
        var factor := holder.FavFactor();
        Compared(testcase, holder, fuzzP2, topFuzzP2);
        if holder == testcase {
          NextP2Unique(testcase.nFuzz, fuzzP2, topFuzzP2);
        }
        if fuzzP2 > topFuzzP2 || (fuzzP2 == topFuzzP2 && favFactor > factor) {
          return;
        }
      }
      Install(cases, testcase, traceBits, i);
      scoreChanged := true;
    }

    /** Gives the entry to the newcomer: its holder loses a reference, the newcomer gains one. */
    method Install(ghost cases: set<Testcase>, testcase: Testcase, traceBits: seq<Byte>, i: nat)
      requires testcase in cases && Counted(topRated[..], cases)
      requires i < |traceBits| == topRated.Length
      modifies topRated, cases`tcRef, cases`traceMini
      ensures Counted(topRated[..], cases)
      ensures topRated[..] == old(topRated[..])[i := testcase]
      ensures forall c :: c in cases && c != testcase && c.tcRef > 0 ==> c.traceMini == old(c.traceMini)
      ensures forall c :: c in cases && c != testcase ==> c.tcRef <= old(c.tcRef)
      ensures testcase.traceMini == old(testcase.traceMini) || Recorded(testcase, traceBits)
      ensures old(testcase.tcRef) == 0 ==> Recorded(testcase, traceBits)
    {
      hide Slots, MiniOf, IsMini;
      MiniIs(traceBits);
      ghost var top := topRated[..];
      var holder := topRated[i];
      if holder != null {
        SlotsHeld(top, i, holder);
        Release(holder);
      }
      topRated[i] := testcase;
      testcase.tcRef := testcase.tcRef + 1;
      if testcase.traceMini == None {
        testcase.traceMini := Some(MiniOf(traceBits));
      }
      assert topRated[..] == top[i := testcase];
      forall c | c in cases ensures c.tcRef == Slots(topRated[..], c) {
        SlotsUpdate(top, i, testcase, c);
      }
    }
  }

  lemma MiniIs(traceBits: seq<Byte>)
    ensures IsMini(traceBits, MiniOf(traceBits))
  {
  }

  /** Takes a reference from the test case, and its trace with the last one. */
  method Release(holder: Testcase)
    requires holder.tcRef > 0
    modifies holder`tcRef, holder`traceMini
    ensures holder.tcRef == old(holder.tcRef) - 1
    ensures holder.traceMini == if holder.tcRef == 0 then None else old(holder.traceMini)
  {
    holder.tcRef := holder.tcRef - 1;
    if holder.tcRef == 0 {
      holder.traceMini := None;
    }
  }

  lemma Compared(a: Testcase, b: Testcase, p: nat, q: nat)
    requires IsNextP2(a.nFuzz, p) && IsNextP2(b.nFuzz, q)
    ensures AtLeastAsGood(a, b) <==> p < q || (p == q && a.FavFactor() <= b.FavFactor())
  {
    assert a.FavFactor() <= b.FavFactor() <==> a.execUs * a.inputLen % TWO_64 <= b.execUs * b.inputLen % TWO_64;
    forall p', q' | IsNextP2(a.nFuzz, p') && IsNextP2(b.nFuzz, q') ensures p == p' && q == q' {
      NextP2Unique(a.nFuzz, p, p');
      NextP2Unique(b.nFuzz, q, q');
    }
  }
}
