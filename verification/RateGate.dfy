/** The rate gate that all workers share in Redis: `_GATE_SCRIPT` as one atomic step, the cooldown, and the
    loop that waits for a slot. All times are milliseconds. */
module RateGate {
  import opened ByteStrings

  // A key is gone at the millisecond in which it expires. On a server that keeps it through that millisecond the
  // lifetime of `last-at`, and with it the bound on intervals below, is one millisecond longer.

  /** The key `last-at` with its value and expiry, and the expiry of the key `cooldown`. */
  datatype Redis = Redis(last: Option<(nat, nat)>, cooldown: Option<nat>)

  datatype Verdict = Cooling(left: nat) | Wait(ms: nat) | Granted

  /** How long `last-at` lives after a grant. */
  function Ttl(interval: nat): (n: nat) {
    Max(interval * 4, 1000)
  }

  function LastAt(r: Redis, now: nat): (n: nat) {
    if r.last.Some? && now < r.last.value.1 then r.last.value.0 else 0
  }

  /** `_GATE_SCRIPT` */
  function Gate(r: Redis, now: nat, interval: nat): (result: (Redis, Verdict)) {
    if r.cooldown.Some? && now < r.cooldown.value then (r, Cooling(r.cooldown.value - now))
    else
      var wait := LastAt(r, now) + interval - now;
      if wait > 0 then (r, Wait(wait))
      else (r.(last := Some((now, now + Ttl(interval)))), Granted)
  }

  /** One atomic step of some client: ask for a slot, or open a cooldown after being rate limited. */
  datatype Step = Ask(now: nat, interval: nat) | Cool(now: nat, seconds: nat)

  function Apply(r: Redis, step: Step): (result: Redis) {
    match step
    case Ask(now, interval) => Gate(r, now, interval).0
    case Cool(now, seconds) => r.(cooldown := Some(now + 1000 * seconds))
  }

  const EMPTY := Redis(None, None)

  /** The keys after the first n steps of an interleaving. */
  function After(steps: seq<Step>, n: nat): (r: Redis)
    requires n <= |steps|
  {
    if n == 0 then EMPTY else Apply(After(steps, n - 1), steps[n - 1])
  }

  predicate Ordered(steps: seq<Step>) {
    forall i, j :: 0 <= i < j < |steps| ==> steps[i].now <= steps[j].now
  }

  predicate GrantedAt(steps: seq<Step>, i: nat) {
    i < |steps| && steps[i].Ask? && Gate(After(steps, i), steps[i].now, steps[i].interval).1.Granted?
  }

  /** The last grant before step n. */
  function LastGrant(steps: seq<Step>, n: nat): (k: Option<nat>)
    requires n <= |steps|
    ensures k.Some? ==> k.value < n && GrantedAt(steps, k.value)
    ensures forall i :: 0 <= i < n && GrantedAt(steps, i) ==> k.Some? && i <= k.value
  {
    if n == 0 then None else if GrantedAt(steps, n - 1) then Some(n - 1) else LastGrant(steps, n - 1)
  }

  lemma {:induction false} LastIsLastGrant(steps: seq<Step>, n: nat)
    requires n <= |steps|
    ensures var k := LastGrant(steps, n);
            After(steps, n).last
            == if k.None? then None
               else Some((steps[k.value].now, steps[k.value].now + Max(4 * steps[k.value].interval, 1000)))
  {
    if n > 0 {
      LastIsLastGrant(steps, n - 1);
    }
  }

  /** When exactly a request is granted: no cooldown is live, and the last grant is an interval ago or its key
      has expired. */
  lemma GrantExactly(steps: seq<Step>, j: nat)
    requires j < |steps| && steps[j].Ask? && steps[j].interval <= steps[j].now
    ensures var k, r, now := LastGrant(steps, j), After(steps, j), steps[j].now;
            GrantedAt(steps, j) <==>
              && (r.cooldown.None? || r.cooldown.value <= now)
              && (k.None? || now >= steps[k.value].now
                              + Min(steps[j].interval, Max(4 * steps[k.value].interval, 1000)))
  {
    LastIsLastGrant(steps, j);
  }

  /** Spacing: in every interleaving a grant comes after any earlier one by at least its own interval, if that
      is no longer than the key of the last grant lives, and else by at least that lifetime. */
  lemma GrantsAreSpaced(steps: seq<Step>, i: nat, j: nat)
    requires Ordered(steps) && i < j < |steps| && GrantedAt(steps, i) && GrantedAt(steps, j)
    ensures LastGrant(steps, j).Some?
    ensures var k := LastGrant(steps, j).value;
            steps[j].now - steps[i].now >= Min(steps[j].interval, Max(4 * steps[k].interval, 1000))
  {
    LastIsLastGrant(steps, j);
    var k := LastGrant(steps, j).value;
    assert k == i || steps[i].now <= steps[k].now;
  }

  /** In every interleaving a grant comes at least its own interval after every earlier one, as long as that is at
      most four times the interval of each grant in between, or at most a second. */
  lemma GrantsKeepTheirInterval(steps: seq<Step>, i: nat, j: nat)
    requires Ordered(steps) && i < j < |steps| && GrantedAt(steps, i) && GrantedAt(steps, j)
    requires forall k :: i <= k < j && GrantedAt(steps, k) ==>
               steps[j].interval <= 4 * steps[k].interval || steps[j].interval <= 1000
    ensures steps[j].now - steps[i].now >= steps[j].interval
  {
    GrantsAreSpaced(steps, i, j);
    var k := LastGrant(steps, j).value;
    assert i <= k < j && GrantedAt(steps, k);
  }

  /** So if all clients use one interval, any two grants are that interval apart. */
  lemma OneIntervalIsKept(steps: seq<Step>, interval: nat, i: nat, j: nat)
    requires Ordered(steps) && i < j < |steps| && GrantedAt(steps, i) && GrantedAt(steps, j)
    requires forall k :: 0 <= k < |steps| && steps[k].Ask? ==> steps[k].interval == interval
    ensures steps[j].now - steps[i].now >= interval
  {
    GrantsKeepTheirInterval(steps, i, j);
  }

  /** The bound on the interval is needed: against any grant, a longer interval is granted too early. */
  lemma SpacingIsExact(first: nat, second: nat)
    ensures (forall t0: nat, t1: nat :: BothGranted(t0, first, t1, second) ==> t1 - t0 >= second)
            <==> second <= 4 * first || second <= 1000
  {
    if second <= Ttl(first) {
      forall t0: nat, t1: nat | BothGranted(t0, first, t1, second) ensures t1 - t0 >= second {
        GrantsAreSpaced([Ask(t0, first), Ask(t1, second)], 0, 1);
      }
    } else {
      var t0 := first + second;
      var steps := [Ask(t0, first), Ask(t0 + Ttl(first), second)];
      assert After(steps, 0) == EMPTY;
      assert GrantedAt(steps, 0);
      assert After(steps, 1) == Redis(Some((t0, t0 + Ttl(first))), None);
      assert BothGranted(t0, first, t0 + Ttl(first), second);
    }
  }

  /** Two requests alone in the world, on a clock that is past their intervals, and both granted. */
  predicate BothGranted(t0: nat, first: nat, t1: nat, second: nat) {
    var steps := [Ask(t0, first), Ask(t1, second)];
    first <= t0 && second <= t0 <= t1 && GrantedAt(steps, 0) && GrantedAt(steps, 1)
  }

  // ---- cooldown ----

  /** The last cooldown that was opened before step n. */
  function LastCool(steps: seq<Step>, n: nat): (k: Option<nat>)
    requires n <= |steps|
    ensures k.Some? ==> k.value < n && steps[k.value].Cool?
    ensures forall i :: 0 <= i < n && steps[i].Cool? ==> k.Some? && i <= k.value
  {
    if n == 0 then None else if steps[n - 1].Cool? then Some(n - 1) else LastCool(steps, n - 1)
  }

  /** A cooldown is the last one opened, and ends just its seconds after that. */
  lemma {:induction false} CooldownIsLast(steps: seq<Step>, n: nat)
    requires n <= |steps|
    ensures var k := LastCool(steps, n);
            After(steps, n).cooldown
            == if k.None? then None else Some(steps[k.value].now + 1000 * steps[k.value].seconds)
  {
    if n > 0 {
      CooldownIsLast(steps, n - 1);
    }
  }

  /** In terms of the trace alone: a request on a clock past its interval is granted exactly if the last cooldown is
      over and the last grant is far enough away. */
  lemma GrantExactlyByTrace(steps: seq<Step>, j: nat)
    requires j < |steps| && steps[j].Ask? && steps[j].interval <= steps[j].now
    ensures var k, c, now := LastGrant(steps, j), LastCool(steps, j), steps[j].now;
            GrantedAt(steps, j) <==>
              && (c.None? || now >= steps[c.value].now + 1000 * steps[c.value].seconds)
              && (k.None? || now >= steps[k.value].now
                                    + Min(steps[j].interval, Max(4 * steps[k.value].interval, 1000)))
  {
    GrantExactly(steps, j);
    CooldownIsLast(steps, j);
  }

  lemma {:induction false} CooldownHolds(steps: seq<Step>, i: nat, n: nat)
    requires Ordered(steps) && i < n <= |steps| && steps[i].Cool?
    requires forall k :: i <= k < n && steps[k].Cool? ==> steps[k].seconds >= steps[i].seconds
    ensures After(steps, n).cooldown.Some?
    ensures After(steps, n).cooldown.value >= steps[i].now + 1000 * steps[i].seconds
  {
    if i < n - 1 {
      CooldownHolds(steps, i, n - 1);
    }
  }

  /** No slot is granted while a cooldown is live, whoever opened it, as long as later ones are not shorter. */
  lemma NoGrantWhileCooling(steps: seq<Step>, i: nat, j: nat)
    requires Ordered(steps) && i < j < |steps| && steps[i].Cool?
    requires forall k :: i <= k < j && steps[k].Cool? ==> steps[k].seconds >= steps[i].seconds
    requires steps[j].now < steps[i].now + 1000 * steps[i].seconds
    ensures !GrantedAt(steps, j)
  {
    CooldownHolds(steps, i, j);
  }

  // ---- the wait ----

  /** The returned wait is exact: undisturbed, a retry is granted from then on; and not before, unless the key
      of the last grant expires first. */
  lemma RetryExactly(r: Redis, now: nat, interval: nat, later: nat)
    requires now <= later && Gate(r, now, interval).1.Wait?
    ensures var due := now + Gate(r, now, interval).1.ms;
            var expiry := if r.last.Some? && now < r.last.value.1 then r.last.value.1 else due;
            && Gate(r, now, interval).0 == r
            && (interval <= later ==> (Gate(r, later, interval).1.Granted? <==> Min(due, expiry) <= later))
            && (due <= later ==> Gate(r, later, interval).1.Granted?)
  {
  }

  /** What `_wait_for_youtube_slot` ends with. */
  datatype Slot = Open | RateLimited(retryAfterSeconds: nat)

  class Server {
    var redis: Redis
    var now: nat
    /** Every step that any client has made so far. */
    ghost var steps: seq<Step>

    ghost predicate Valid()
      reads this
    {
      && Ordered(steps) && redis == After(steps, |steps|)
      && forall i :: 0 <= i < |steps| ==> steps[i].now <= now
    }

    constructor ()
      ensures Valid() && steps == [] && now == 0
    {
      redis, now, steps := EMPTY, 0, [];
    }

    /** One step at the present time. */
    ghost method Record(step: Step)
      requires Ordered(steps) && step.now == now
      requires redis == Apply(After(steps, |steps|), step)
      requires forall i :: 0 <= i < |steps| ==> steps[i].now <= now
      modifies this`steps
      ensures Valid() && steps == old(steps) + [step]
    {
      Prefix(steps, step, |steps|);
      steps := steps + [step];
    }

    method Eval(interval: nat) returns (v: Verdict)
      requires Valid()
      modifies this`redis, this`steps
      ensures Valid() && steps == old(steps) + [Ask(now, interval)]
      ensures (redis, v) == Gate(old(redis), now, interval)
      ensures v.Granted? <==> GrantedAt(steps, |steps| - 1)
    {
      var reply := Gate(redis, now, interval);
      redis, v := reply.0, reply.1;
      Prefix(steps, Ask(now, interval), |steps|);
      Record(Ask(now, interval));
    }

    /** `_open_rate_limit_cooldown` */
    method OpenCooldown(seconds: nat)
      requires Valid()
      modifies this`redis, this`steps
      ensures Valid() && steps == old(steps) + [Cool(now, seconds)]
    {
      redis := redis.(cooldown := Some(now + 1000 * seconds));
      Record(Cool(now, seconds));
    }

    /** `time.sleep`, while other clients do `others`, each at its time or as soon after as the clock allows. */
    method Sleep(ms: nat, others: seq<Step>)
      requires Valid()
      modifies this
      ensures Valid() && old(steps) <= steps
      ensures others == [] ==> redis == old(redis) && now == old(now) + ms
      ensures now == old(now) + ms
    {
      var until := now + ms;
      for i := 0 to |others|
        invariant Valid() && old(steps) <= steps && now <= until
        invariant others == [] ==> redis == old(redis)
      {
        now := Max(now, Min(others[i].now, until));
        match others[i] {
          case Ask(_, interval) => var _ := Eval(interval);
          case Cool(_, seconds) => OpenCooldown(seconds);
        }
      }
      now := until;
    }

    /** `_wait_for_youtube_slot`; `others[k]` is what other clients do during the k-th sleep, and nobody else
        comes after the last of them. The loop ends: an undisturbed retry is not put off again. */
    method WaitForSlot(interval: nat, others: seq<seq<Step>>) returns (slot: Slot, evals: nat)
      requires Valid()
      modifies this
      ensures Valid() && old(steps) <= steps && |steps| > |old(steps)|
      ensures steps[|steps| - 1] == Ask(now, interval)
      ensures slot.Open? <==> GrantedAt(steps, |steps| - 1)
      ensures slot.RateLimited? ==> After(steps, |steps|).cooldown.Some? && now < After(steps, |steps|).cooldown.value
                                    && slot.retryAfterSeconds ==
                                         Max((After(steps, |steps|).cooldown.value - now) / 1000, 1)
      ensures 1 <= evals <= |others| + 2
    {
      evals := 0;
      var sleeps := 0;
      var undisturbed := false;
      while true
        invariant Valid() && old(steps) <= steps && evals == sleeps <= |others| + 1
        invariant undisturbed <==> sleeps == |others| + 1
        invariant undisturbed ==> !Gate(redis, now, interval).1.Wait?
        decreases |others| + 1 - sleeps
      {
        var v := Eval(interval);
        evals := evals + 1;
        match v {
          case Cooling(left) => return RateLimited(Max(left / 1000, 1)), evals;
          case Granted => return Open, evals;
          case Wait(ms) =>
            RetryExactly(redis, now, interval, now + ms);
            undisturbed := sleeps >= |others|;
            Sleep(ms, if sleeps < |others| then others[sleeps] else []);
            sleeps := sleeps + 1;
        }
      }
    }
  }

  lemma {:induction false} Prefix(steps: seq<Step>, step: Step, n: nat)
    requires n <= |steps|
    ensures After(steps + [step], n) == After(steps, n)
  {
    if n > 0 {
      Prefix(steps, step, n - 1);
    }
  }
}
