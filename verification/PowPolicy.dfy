/** The adaptive proof-of-work requirement, with the bridge's default limits. */
module PowPolicy {
  import opened Numbers

  const U32_MAX: int := 0xffff_ffff
  const TWO32: int := 0x1_0000_0000

  const STEP_REQUESTS: nat := 20
  const STEP_BYTES: nat := 262_144
  const REPUTATION_STEP: nat := 25

  datatype PowParams = PowParams(memoryKib: u32, iterations: u32, parallelism: u32, outputLen: nat)

  const MINIMUM := PowParams(64 * 1024, 3, 1, 32)

  function Bonus(rep: int): nat {
    Max(rep, 0) / REPUTATION_STEP
  }

  /** Volume steps less the reputation bonus, not below zero. */
  function Steps(requests: u64, bytes: u64, reputation: int): (r: u64)
  {
    var volume := Max(requests / STEP_REQUESTS, bytes / STEP_BYTES);
    Max(volume - Bonus(reputation), 0)
  }

  /** The step count is cut to 32 bits before it scales the base parameters. */
  function ParamsFor(steps: u64): PowParams {
    var cut := steps % TWO32;
    PowParams(Min(MINIMUM.memoryKib * Min(cut + 1, U32_MAX), U32_MAX),
              Min(MINIMUM.iterations + cut, U32_MAX),
              MINIMUM.parallelism, MINIMUM.outputLen)
  }

  function RequiredPow(requests: u64, bytes: u64, reputation: int): PowParams {
    ParamsFor(Steps(requests, bytes, reputation))
  }

  predicate AtLeast(p: PowParams, q: PowParams) {
    && p.memoryKib >= q.memoryKib && p.iterations >= q.iterations
    && p.parallelism >= q.parallelism && p.outputLen >= q.outputLen
  }

  /** More recent volume never means fewer steps, better reputation never means more. */
  lemma StepsMonotone(r: u64, b: u64, rep: int, r': u64, b': u64, rep': int)
    requires r <= r' && b <= b' && rep >= rep'
    ensures Steps(r, b, rep) <= Steps(r', b', rep')
  {
  }

  /** Each 20 recent requests, or each 262144 recent bytes, ask for one step more, and each 25 points
      of reputation for one less: `k` steps more iterations and `k` times the base memory more
      are required exactly from that volume on. */
  lemma {:induction false} RequiredFrom(requests: u64, bytes: u64, reputation: int, k: nat)
    requires 1 <= k <= 65534 && Steps(requests, bytes, reputation) < TWO32
    ensures var bonus := (if reputation > 0 then reputation else 0) / 25;
            var enough := requests >= 20 * (k + bonus) || bytes >= 262_144 * (k + bonus);
            && (RequiredPow(requests, bytes, reputation).iterations >= 3 + k <==> enough)
            && (RequiredPow(requests, bytes, reputation).memoryKib >= 65_536 * (1 + k) <==> enough)
    ensures RequiredPow(requests, bytes, reputation).parallelism == 1
    ensures RequiredPow(requests, bytes, reputation).outputLen == 32
  {
    StepsFrom(requests, bytes, reputation, k);
    hide Steps;
    ParamsFrom(Steps(requests, bytes, reputation), k);
  }

  lemma StepsFrom(requests: u64, bytes: u64, reputation: int, k: nat)
    requires k >= 1
    ensures var bonus := (if reputation > 0 then reputation else 0) / 25;
            Steps(requests, bytes, reputation) >= k
            <==> requests >= 20 * (k + bonus) || bytes >= 262_144 * (k + bonus)
  {
  }

  lemma ParamsFrom(steps: u64, k: nat)
    requires 1 <= k <= 65534 && steps < TWO32
    ensures ParamsFor(steps).iterations >= 3 + k <==> steps >= k
    ensures ParamsFor(steps).memoryKib >= 65_536 * (1 + k) <==> steps >= k
  {
  }

  /** Whatever the volume and reputation, the requirement is at or above the protocol minimum. */
  lemma NeverBelowMinimum(requests: u64, bytes: u64, reputation: int)
    ensures AtLeast(RequiredPow(requests, bytes, reputation), MINIMUM)
  {
  }

  lemma ParamsMonotone(a: u64, b: u64)
    requires a <= b < TWO32
    ensures AtLeast(ParamsFor(b), ParamsFor(a))
  {
  }

  /** No more volume, and no worse reputation. */
  predicate NoHigher(r: u64, b: u64, rep: int, r': u64, b': u64, rep': int) {
    r <= r' && b <= b' && rep >= rep'
  }

  /** Up to some volume and down to some reputation, more volume or less reputation never lowers
      the requirement. */
  ghost predicate MonotoneUpTo(r: u64, b: u64, rep: int) {
    forall r1: u64, b1: u64, rep1: int, r2: u64, b2: u64, rep2: int ::
      NoHigher(r1, b1, rep1, r2, b2, rep2) && NoHigher(r2, b2, rep2, r, b, rep) ==>
        AtLeast(RequiredPow(r2, b2, rep2), RequiredPow(r1, b1, rep1))
  }

  /** A volume, of requests alone or of bytes alone, for a number of steps. */
  function VolumeFor(r: u64, b: u64, rep: int, steps: nat): (int, int) {
    if r / STEP_REQUESTS >= b / STEP_BYTES then (STEP_REQUESTS * (steps + Bonus(rep)), 0)
    else (0, STEP_BYTES * (steps + Bonus(rep)))
  }

  /** Every smaller number of steps is reached by a smaller volume at the same reputation. */
  lemma VolumeReaches(r: u64, b: u64, rep: int, steps: nat)
    requires 0 < steps <= Steps(r, b, rep)
    ensures 0 <= VolumeFor(r, b, rep, steps).0 <= r && 0 <= VolumeFor(r, b, rep, steps).1 <= b
    ensures Steps(VolumeFor(r, b, rep, steps).0, VolumeFor(r, b, rep, steps).1, rep) == steps
  {
  }

  /** The requirement is monotone up to a volume and reputation exactly when their step count
      fits in 32 bits. */
  lemma {:induction false} MonotoneIff(r: u64, b: u64, rep: int)
    ensures MonotoneUpTo(r, b, rep) <==> Steps(r, b, rep) < TWO32
  {
    hide ParamsFor, Steps;
    if Steps(r, b, rep) < TWO32 {
      forall r1: u64, b1: u64, rep1: int, r2: u64, b2: u64, rep2: int
        | NoHigher(r1, b1, rep1, r2, b2, rep2) && NoHigher(r2, b2, rep2, r, b, rep)
        ensures AtLeast(RequiredPow(r2, b2, rep2), RequiredPow(r1, b1, rep1))
      {
        StepsMonotone(r1, b1, rep1, r2, b2, rep2);
        StepsMonotone(r2, b2, rep2, r, b, rep);
        ParamsMonotone(Steps(r1, b1, rep1), Steps(r2, b2, rep2));
      }
    } else {
      VolumeReaches(r, b, rep, TWO32 - 1);
      VolumeReaches(r, b, rep, TWO32);
      var p, q := VolumeFor(r, b, rep, TWO32 - 1), VolumeFor(r, b, rep, TWO32);
      ParamsDrop();
      assert NoHigher(p.0, p.1, rep, q.0, q.1, rep) && NoHigher(q.0, q.1, rep, r, b, rep);
      assert !AtLeast(RequiredPow(q.0, q.1, rep), RequiredPow(p.0, p.1, rep));
    }
  }

  lemma ParamsDrop()
    ensures !AtLeast(ParamsFor(TWO32), ParamsFor(TWO32 - 1))
  {
  }

  /** At 2^32 steps the requirement is back at the minimum; one step below, it is at its highest. */
  lemma WrappedVolumeIsCheap()
    ensures RequiredPow(0, STEP_BYTES * TWO32, 0) == MINIMUM
    ensures RequiredPow(0, STEP_BYTES * (TWO32 - 1), 0) == MINIMUM.(memoryKib := U32_MAX, iterations := U32_MAX)
  {
  }

  /** A request that passes the default rate limits needs at most six times the base memory and
      eight iterations, and up to its volume the requirement is monotone. */
  lemma AdmittedPowIsModest(requests: u64, bytes: u64, incoming: u64, reputation: int)
    requires requests + 1 <= 120 && bytes + incoming <= 1_048_576
    ensures RequiredPow(requests, bytes, reputation).memoryKib <= 6 * 65_536
    ensures RequiredPow(requests, bytes, reputation).iterations <= 8
    ensures MonotoneUpTo(requests, bytes, reputation)
  {
    MonotoneIff(requests, bytes, reputation);
  }

  // ----- reputation -----

  function NextReputation(current: int, accepted: bool): int {
    if accepted then Min(current + 1, 100) else Max(current - 1, -20)
  }

  /** Inside the range an accepted request raises the score by one and a refused one lowers it by one;
      at the ends it stays. */
  lemma ReputationMoves(current: int)
    requires -20 <= current <= 100
    ensures NextReputation(current, true) == if current == 100 then 100 else current + 1
    ensures NextReputation(current, false) == if current == -20 then -20 else current - 1
  {
  }

  /** The scores one identity ever had. Reading and writing a score are separate statements, so an
      update may start from any earlier score. */
  ghost predicate ReputationHistory(scores: seq<int>) {
    && scores != [] && scores[0] == 0
    && forall i :: 0 < i < |scores| ==>
         exists j, accepted :: 0 <= j < i && scores[i] == NextReputation(scores[j], accepted)
  }

  /** Lost updates included, a reputation never leaves its range, so its bonus is at most four steps. */
  lemma {:induction false} ReputationStaysInRange(scores: seq<int>, i: nat)
    requires ReputationHistory(scores) && i < |scores|
    ensures -20 <= scores[i] <= 100
    ensures forall r: u64, b: u64 :: Steps(r, b, 0) <= Steps(r, b, scores[i]) + 4
  {
    if i > 0 {
      var j, accepted :| 0 <= j < i && scores[i] == NextReputation(scores[j], accepted);
      ReputationStaysInRange(scores, j);
    }
  }

  /** How a puzzle is judged, for an unknown verification of its output. */
  datatype Verdict = TooWeak | BelowProtocol | BadLength | WrongOutput | Accepted

  function JudgePuzzle(params: PowParams, minimum: PowParams, outputLength: nat, outputMatches: bool): Verdict {
    if !AtLeast(params, minimum) then TooWeak
    else if params.memoryKib < MINIMUM.memoryKib || params.iterations < MINIMUM.iterations then BelowProtocol
    else if outputLength != params.outputLen then BadLength
    else if outputMatches then Accepted else WrongOutput
  }

  /** After the bridge's own minimum has passed, the protocol check behind it cannot fail, and a
      puzzle is accepted exactly when all four parameters meet the requirement, the output has
      the announced length and it is right. */
  lemma SecondCheckIsRedundant(params: PowParams, requests: u64, bytes: u64, reputation: int, length: nat, matches: bool)
    ensures var q := RequiredPow(requests, bytes, reputation);
            var met := && params.memoryKib >= q.memoryKib && params.iterations >= q.iterations
                       && params.parallelism >= q.parallelism && params.outputLen >= q.outputLen;
            var r := JudgePuzzle(params, q, length, matches);
            && r != BelowProtocol && (r == TooWeak <==> !met) && (r == BadLength <==> met && length != params.outputLen)
            && (r == WrongOutput <==> met && length == params.outputLen && !matches)
            && (r == Accepted <==> met && length == params.outputLen && matches)
  {
    NeverBelowMinimum(requests, bytes, reputation);
    hide RequiredPow;
  }
}
