/** The multi-peripheral revision of `Peripherals::get`: the same one-shot
    flag, now handing out LEUART0, USART0 and USART1 handles. The base
    addresses come from the device header of the chip selected at build time,
    so they are a parameter here. */
module Peripherals {
  import opened Common
  import OneShot
  import Usart

  /** `LEUART` in this revision: a handle holding its register block's base
      address. */
  datatype Leuart = Leuart(ptr: nat)

  /** `Peripherals`: one handle per peripheral instance on the chip. */
  datatype Peripherals = Peripherals(leuart0: Leuart, usart0: Usart.Usart, usart1: Usart.Usart)

  /** `LEUART0_BASE`, `USART0_BASE` and `USART1_BASE` of the selected chip. */
  datatype MemoryMap = MemoryMap(leuart0Base: nat, usart0Base: nat, usart1Base: nat)

  /** The three register blocks are at different addresses. */
  predicate DistinctBases(mm: MemoryMap) {
    && mm.leuart0Base != mm.usart0Base
    && mm.leuart0Base != mm.usart1Base
    && mm.usart0Base != mm.usart1Base
  }

  /** The bundle `get` builds. */
  function Bundle(mm: MemoryMap): Peripherals {
    Peripherals(Leuart(mm.leuart0Base), Usart.Usart(mm.usart0Base), Usart.Usart(mm.usart1Base))
  }

  /** The base addresses a bundle hands out. */
  function Bases(p: Peripherals): seq<nat> {
    [p.leuart0.ptr, p.usart0.ptr, p.usart1.ptr]
  }

  /** `Peripherals::get`, given the `GOT_PERIPHERALS` flag: the bundle, whose
      handles carry LEUART0_BASE, USART0_BASE and USART1_BASE, exactly when the
      flag was clear; the flag is set afterwards in every case. */
  function Get(gotPeripherals: bool, mm: MemoryMap): (r: (Option<Peripherals>, bool))
    ensures r.0.Some? <==> !gotPeripherals
    ensures r.0.Some? ==> && r.0.value.leuart0.ptr == mm.leuart0Base
                          && r.0.value.usart0.ptr == mm.usart0Base
                          && r.0.value.usart1.ptr == mm.usart1Base
    ensures r.1
  {
    OneShot.Claim(gotPeripherals, Bundle(mm))
  }

  /** With distinct base addresses, the handles `get` hands out are pairwise
      distinct. */
  lemma HandlesDistinct(gotPeripherals: bool, mm: MemoryMap)
    requires DistinctBases(mm)
    ensures Get(gotPeripherals, mm).0.Some? ==> NoDuplicates(Bases(Get(gotPeripherals, mm).0.value))
  {
  }

  /** `n` successive calls of `get` starting from flag `gotPeripherals`: the
      result of each call, and the flag afterwards. */
  function GetRun(gotPeripherals: bool, mm: MemoryMap, n: nat): (r: (seq<Option<Peripherals>>, bool))
    ensures |r.0| == n
    decreases n
  {
    if n == 0 then ([], gotPeripherals)
    else
      var (first, after) := Get(gotPeripherals, mm);
      var (rest, final) := GetRun(after, mm, n - 1);
      ([first] + rest, final)
  }

  /** A run of `get` calls from any flag is the generic one-shot run on this
      bundle. */
  lemma {:induction false} GetRunIsOneShotRun(gotPeripherals: bool, mm: MemoryMap, n: nat)
    ensures GetRun(gotPeripherals, mm, n) == OneShot.Run(gotPeripherals, Bundle(mm), n)
    decreases n
  {
    if n > 0 {
      GetRunIsOneShotRun(Get(gotPeripherals, mm).1, mm, n - 1);
    }
  }

  /** Over `n >= 1` calls of `get` from start-up, exactly the first yields the
      bundle, every later one yields `None`, and the flag ends up set. */
  lemma ExactlyFirstGetSucceeds(mm: MemoryMap, n: nat)
    requires n >= 1
    ensures GetRun(false, mm, n).0[0] == Get(false, mm).0
    ensures forall i :: 1 <= i < n ==> GetRun(false, mm, n).0[i] == None
    ensures OneShot.Successes(GetRun(false, mm, n).0) == 1
    ensures GetRun(false, mm, n).1
  {
    GetRunIsOneShotRun(false, mm, n);
    OneShot.ExactlyFirstSucceeds(Bundle(mm), n);
  }

  /** No element of `s` occurs twice. */
  predicate NoDuplicates(s: seq<nat>) {
    forall i, j :: 0 <= i < j < |s| ==> s[i] != s[j]
  }

  /** The base addresses handed out over a run of calls, in order. */
  function Issued(results: seq<Option<Peripherals>>): seq<nat> {
    if |results| == 0 then []
    else (if results[0].Some? then Bases(results[0].value) else []) + Issued(results[1..])
  }

  /** A run in which every call failed hands out nothing. */
  lemma {:induction false} NothingIssued(results: seq<Option<Peripherals>>)
    requires forall i :: 0 <= i < |results| ==> results[i] == None
    ensures Issued(results) == []
  {
    if |results| > 0 {
      NothingIssued(results[1..]);
    }
  }

  /** Whatever the flag at the start and however many calls are made, no base
      address is handed out twice: at most one live handle per register block. */
  lemma NoBaseIssuedTwice(gotPeripherals: bool, mm: MemoryMap, n: nat)
    requires DistinctBases(mm)
    ensures NoDuplicates(Issued(GetRun(gotPeripherals, mm, n).0))
  {
    GetRunIsOneShotRun(gotPeripherals, mm, n);
    var results := OneShot.Run(gotPeripherals, Bundle(mm), n).0;
    if gotPeripherals {
      OneShot.ClaimedRunFails(Bundle(mm), n);
      NothingIssued(results);
    } else if n > 0 {
      OneShot.ExactlyFirstSucceeds(Bundle(mm), n);
      NothingIssued(results[1..]);
      assert Issued(results) == Bases(Bundle(mm));
    }
  }
}
