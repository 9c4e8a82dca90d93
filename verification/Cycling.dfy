/** Balances on which the search for the StableSwap invariant never settles: it goes
    around a few values until the steps it is allowed are used up. */
module Cycling {
  import opened Arithmetic
  import opened Means
  import opened Results
  import opened StableSwap
  import opened InvariantSearch

  /** One step of the search for two balances, by more than one. */
  ghost predicate Leads(a: nat, b: nat, ann: nat, d: nat, next: nat) {
    && !(-1 <= next - d <= 1) && Divisible([a, b], 2, 0)
    && NextD(Sum([a, b]), ann, 1, 2, Chain(d, 2, 0, [a, b]), d) == Success(next)
  }

  ghost predicate Unsettled(a: nat, b: nat, ann: nat, d: nat, steps: nat) {
    var f := SearchD([a, b], ann, 2, 0, 1, d, steps);
    f.Success? && !f.value.settled
  }

  lemma {:induction false} OnTheWay(a: nat, b: nat, ann: nat, d: nat, next: nat, steps: nat)
    requires Leads(a, b, ann, d, next) && (0 < steps ==> Unsettled(a, b, ann, next, steps - 1))
    ensures Unsettled(a, b, ann, d, steps)
  {
    hide Chain, Sum, Divisible, NextD;
  }

  lemma {:induction false} ChainOfPair(d: nat, a: nat, b: nat, h: nat, p: nat)
    requires 0 < a && 0 < b && h * (2 * a) <= d * d < (h + 1) * (2 * a) && p * (2 * b) <= h * d < (p + 1) * (2 * b)
    ensures Divisible([a, b], 2, 0) && Sum([a, b]) == a + b && Chain(d, 2, 0, [a, b]) == p
  {
    BeforeAny(d, 2);
    ChainSnoc(d, 2, 0, [], a);
    ChainSnoc(d, 2, 0, [a], b);
    assert [] + [a] == [a] && [a] + [b] == [a, b];
    FloorUnique(d * d, 2 * a, h);
    FloorUnique(h * d, 2 * b, p);
    assert a * 2 == 2 * a && b * 2 == 2 * b;
  }

  /** A step, checked by multiplication. */
  lemma {:induction false} LeadsTo(a: nat, b: nat, ann: nat, d: nat, h: nat, p: nat, next: nat)
    requires 0 < a && 0 < b && h * (2 * a) <= d * d < (h + 1) * (2 * a) && p * (2 * b) <= h * d < (p + 1) * (2 * b)
    requires !(-1 <= next - d <= 1) && 0 < (ann - 1) * d + 3 * p
    requires next * ((ann - 1) * d + 3 * p) <= (ann * (a + b) + p * 2) * d < (next + 1) * ((ann - 1) * d + 3 * p)
    ensures Leads(a, b, ann, d, next)
  {
    ChainOfPair(d, a, b, h, p);
    hide Chain, Sum, Divisible;
    FloorUnique((ann * (a + b) + p * 2) * d, (ann - 1) * d + 3 * p, next);
  }

  // ----- a small pool with the least amplification -----

  lemma {:induction false} SmallCycle(steps: nat)
    ensures Unsettled(1000, 1, 2, 193, steps) && Unsettled(1000, 1, 2, 195, steps)
    decreases steps
  {
    hide Leads, Unsettled;
    LeadsTo(1000, 1, 2, 193, 18, 1737, 195);
    LeadsTo(1000, 1, 2, 195, 19, 1852, 193);
    if 0 < steps { SmallCycle(steps - 1); }
    OnTheWay(1000, 1, 2, 193, 195, steps);
    OnTheWay(1000, 1, 2, 195, 193, steps);
  }

  /** For balances 1000 and 1 the search goes back and forth between 193 and 195. */
  lemma {:induction false} SmallPoolNeverSettles()
    ensures var f := InvariantOf([1000, 1], 2, 2, 0, 1); f.Success? && !f.value.settled
  {
    hide Leads;
    LeadsTo(1000, 1, 2, 1001, 501, 250750, 669);
    LeadsTo(1000, 1, 2, 669, 223, 74593, 450);
    LeadsTo(1000, 1, 2, 450, 101, 22725, 311);
    LeadsTo(1000, 1, 2, 311, 48, 7464, 231);
    LeadsTo(1000, 1, 2, 231, 26, 3003, 200);
    LeadsTo(1000, 1, 2, 200, 20, 2000, 193);
    SmallCycle(MAX_STEPS - 6);
    OnTheWay(1000, 1, 2, 200, 193, MAX_STEPS - 5);
    OnTheWay(1000, 1, 2, 231, 200, MAX_STEPS - 4);
    OnTheWay(1000, 1, 2, 311, 231, MAX_STEPS - 3);
    OnTheWay(1000, 1, 2, 450, 311, MAX_STEPS - 2);
    OnTheWay(1000, 1, 2, 669, 450, MAX_STEPS - 1);
    OnTheWay(1000, 1, 2, 1001, 669, MAX_STEPS);
    ChainOfPair(0, 1000, 1, 0, 0);
  }

  // ----- a pool of many whole coins with a usual amplification -----

  const PLENTY: nat := 840602679157592942444544
  const SCARCE: nat := 64168067987625344

  lemma {:induction false} LargeSteps()
    ensures Leads(PLENTY, SCARCE, 400, 840602743325660930069888, 560413293112143004313432)
    ensures Leads(PLENTY, SCARCE, 400, 560413293112143004313432, 373651719972937488234034)
    ensures Leads(PLENTY, SCARCE, 400, 373651719972937488234034, 249223129324662419927551)
    ensures Leads(PLENTY, SCARCE, 400, 249223129324662419927551, 166461181556747811266282)
    ensures Leads(PLENTY, SCARCE, 400, 166461181556747811266282, 111731128145390287760708)
    ensures Leads(PLENTY, SCARCE, 400, 111731128145390287760708, 76249243275439070371272)
    ensures Leads(PLENTY, SCARCE, 400, 76249243275439070371272, 54722112032417480491747)
    ensures Leads(PLENTY, SCARCE, 400, 54722112032417480491747, 44134054054168027778069)
    ensures Leads(PLENTY, SCARCE, 400, 44134054054168027778069, 41230419305640711931568)
    ensures Leads(PLENTY, SCARCE, 400, 41230419305640711931568, 41019885367713038395754)
    ensures Leads(PLENTY, SCARCE, 400, 41019885367713038395754, 41018819289326331331843)
    ensures Leads(PLENTY, SCARCE, 400, 41018819289326331331843, 41018819262083129246148)
    ensures Leads(PLENTY, SCARCE, 400, 41018819262083129246148, 41018819262083129228355)
    ensures Leads(PLENTY, SCARCE, 400, 41018819262083129228355, 41018819262083129228365)
    ensures Leads(PLENTY, SCARCE, 400, 41018819262083129228365, 41018819262083129228358)
    ensures Leads(PLENTY, SCARCE, 400, 41018819262083129228358, 41018819262083129228353)
  {
    hide Leads;
    LeadsTo(PLENTY, SCARCE, 400, 840602743325660930069888, 420301403746866908007636, 2752977642099002023672928791241,
            560413293112143004313432);
    LeadsTo(PLENTY, SCARCE, 400, 560413293112143004313432, 186808266785167705139863, 815747140694938625553791022948,
            373651719972937488234034);
    LeadsTo(PLENTY, SCARCE, 400, 373651719972937488234034, 83044945787378282397446, 241786045627065497487371505211,
            249223129324662419927551);
    LeadsTo(PLENTY, SCARCE, 400, 249223129324662419927551, 36945021548481681749739, 71745606280801102033572483855,
            166461181556747811266282);
    LeadsTo(PLENTY, SCARCE, 400, 166461181556747811266282, 16481820515393408882617, 21378104431379532857262393886,
            111731128145390287760708);
    LeadsTo(PLENTY, SCARCE, 400, 111731128145390287760708, 7425532481738142722839, 6464766255895696504517013486,
            76249243275439070371272);
    LeadsTo(PLENTY, SCARCE, 400, 76249243275439070371272, 3458201623806098977355, 2054645442651948998476464036,
            54722112032417480491747);
    LeadsTo(PLENTY, SCARCE, 400, 54722112032417480491747, 1781168213911349500866, 759484347955080448823714132,
            44134054054168027778069);
    LeadsTo(PLENTY, SCARCE, 400, 44134054054168027778069, 1158582274094237421362, 398429735495050700944983651,
            41230419305640711931568);
    LeadsTo(PLENTY, SCARCE, 400, 41230419305640711931568, 1011148024071578495105, 324850492776103961000303536,
            41019885367713038395754);
    LeadsTo(PLENTY, SCARCE, 400, 41019885367713038395754, 1000847985201856032477, 319899530334963358523739535,
            41018819289326331331843);
    LeadsTo(PLENTY, SCARCE, 400, 41018819289326331331843, 1000795963187129668979, 319874589082040271713441274,
            41018819262083129246148);
    LeadsTo(PLENTY, SCARCE, 400, 41018819262083129246148, 1000795961857745394396, 319874588444693203882100170,
            41018819262083129228355);
    LeadsTo(PLENTY, SCARCE, 400, 41018819262083129228355, 1000795961857745393527, 319874588444693203465596150,
            41018819262083129228365);
    LeadsTo(PLENTY, SCARCE, 400, 41018819262083129228365, 1000795961857745393528, 319874588444693203465993753,
            41018819262083129228358);
    LeadsTo(PLENTY, SCARCE, 400, 41018819262083129228358, 1000795961857745393528, 319874588444693203465939165,
            41018819262083129228353);
  }

  lemma {:induction false} LargeCycleSteps()
    ensures Leads(PLENTY, SCARCE, 400, 41018819262083129228353, 41018819262083129228364)
    ensures Leads(PLENTY, SCARCE, 400, 41018819262083129228364, 41018819262083129228357)
    ensures Leads(PLENTY, SCARCE, 400, 41018819262083129228357, 41018819262083129228353)
  {
    hide Leads;
    LeadsTo(PLENTY, SCARCE, 400, 41018819262083129228353, 1000795961857745393527, 319874588444693203465580554,
            41018819262083129228364);
    LeadsTo(PLENTY, SCARCE, 400, 41018819262083129228364, 1000795961857745393528, 319874588444693203465985955,
            41018819262083129228357);
    LeadsTo(PLENTY, SCARCE, 400, 41018819262083129228357, 1000795961857745393528, 319874588444693203465931367,
            41018819262083129228353);
  }

  lemma {:induction false} LargeCycle(steps: nat)
    ensures Unsettled(PLENTY, SCARCE, 400, 41018819262083129228353, steps)
    ensures Unsettled(PLENTY, SCARCE, 400, 41018819262083129228364, steps)
    ensures Unsettled(PLENTY, SCARCE, 400, 41018819262083129228357, steps)
    decreases steps
  {
    hide Leads, Unsettled;
    LargeCycleSteps();
    if 0 < steps { LargeCycle(steps - 1); }
    OnTheWay(PLENTY, SCARCE, 400, 41018819262083129228353, 41018819262083129228364, steps);
    OnTheWay(PLENTY, SCARCE, 400, 41018819262083129228364, 41018819262083129228357, steps);
    OnTheWay(PLENTY, SCARCE, 400, 41018819262083129228357, 41018819262083129228353, steps);
  }

  /** With 18 decimals, some 840602 coins of one kind against less than a tenth of a coin of
      the other and an amplification of 200, the search goes around three values. */
  lemma {:induction false} LargePoolNeverSettles()
    ensures var f := InvariantOf([PLENTY, SCARCE], 400, 2, 0, 1); f.Success? && !f.value.settled
  {
    LargeSteps();
    hide Leads, Unsettled;
    LargeCycle(MAX_STEPS - 16);
    OnTheWay(PLENTY, SCARCE, 400, 41018819262083129228358, 41018819262083129228353, MAX_STEPS - 15);
    OnTheWay(PLENTY, SCARCE, 400, 41018819262083129228365, 41018819262083129228358, MAX_STEPS - 14);
    OnTheWay(PLENTY, SCARCE, 400, 41018819262083129228355, 41018819262083129228365, MAX_STEPS - 13);
    OnTheWay(PLENTY, SCARCE, 400, 41018819262083129246148, 41018819262083129228355, MAX_STEPS - 12);
    OnTheWay(PLENTY, SCARCE, 400, 41018819289326331331843, 41018819262083129246148, MAX_STEPS - 11);
    OnTheWay(PLENTY, SCARCE, 400, 41019885367713038395754, 41018819289326331331843, MAX_STEPS - 10);
    OnTheWay(PLENTY, SCARCE, 400, 41230419305640711931568, 41019885367713038395754, MAX_STEPS - 9);
    OnTheWay(PLENTY, SCARCE, 400, 44134054054168027778069, 41230419305640711931568, MAX_STEPS - 8);
    OnTheWay(PLENTY, SCARCE, 400, 54722112032417480491747, 44134054054168027778069, MAX_STEPS - 7);
    OnTheWay(PLENTY, SCARCE, 400, 76249243275439070371272, 54722112032417480491747, MAX_STEPS - 6);
    OnTheWay(PLENTY, SCARCE, 400, 111731128145390287760708, 76249243275439070371272, MAX_STEPS - 5);
    OnTheWay(PLENTY, SCARCE, 400, 166461181556747811266282, 111731128145390287760708, MAX_STEPS - 4);
    OnTheWay(PLENTY, SCARCE, 400, 249223129324662419927551, 166461181556747811266282, MAX_STEPS - 3);
    OnTheWay(PLENTY, SCARCE, 400, 373651719972937488234034, 249223129324662419927551, MAX_STEPS - 2);
    OnTheWay(PLENTY, SCARCE, 400, 560413293112143004313432, 373651719972937488234034, MAX_STEPS - 1);
    OnTheWay(PLENTY, SCARCE, 400, 840602743325660930069888, 560413293112143004313432, MAX_STEPS);
    FromTheSum();
  }

  lemma {:induction false} FromTheSum()
    requires Unsettled(PLENTY, SCARCE, 400, PLENTY + SCARCE, MAX_STEPS)
    ensures var f := InvariantOf([PLENTY, SCARCE], 400, 2, 0, 1); f.Success? && !f.value.settled
  {
    ChainOfPair(0, PLENTY, SCARCE, 0, 0);
    hide Chain, Divisible, SearchD;
  }
}
