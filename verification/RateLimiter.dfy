/** The rate limiter of ddos/mitigation/ratelimiter.go: a global token bucket in front of a
    Count-Min Sketch of per-address counts that is halved from time to time. Time is a real number
    of seconds and tokens are exact reals; FNV is an arbitrary function into the columns. */
module RateLimiting {
  import opened Bits

  const CMS_ROWS := 4
  const CMS_COLS := 512
  const MAX_UINT16 := 65535

  type CmsHash = (string, nat) -> nat
  type Cms = seq<seq<nat>>

  datatype Limits = Limits(maxTokens: real, refillRate: real, perIPLimit: nat)

  datatype Limiter = Limiter(tokens: real, lastRefill: real, cms: Cms, dropped: nat)

  ghost predicate ValidHash(h: CmsHash) {
    forall ip: string, row: nat :: h(ip, row) < CMS_COLS
  }

  predicate ValidCms(cms: Cms) {
    && |cms| == CMS_ROWS
    && forall r | 0 <= r < CMS_ROWS :: |cms[r]| == CMS_COLS && forall c | 0 <= c < CMS_COLS :: cms[r][c] <= MAX_UINT16
  }

  function Bump(n: nat): nat {
    if n < MAX_UINT16 then n + 1 else n
  }

  function Cell(cms: Cms, h: CmsHash, ip: string, r: nat): nat
    requires ValidHash(h) && ValidCms(cms) && r < CMS_ROWS
  {
    cms[r][h(ip, r)]
  }

  /** Adds one, saturating, in the first `n` rows. */
  function BumpRows(cms: Cms, h: CmsHash, ip: string, n: nat): (cms': Cms)
    requires ValidHash(h) && ValidCms(cms) && n <= CMS_ROWS
    ensures ValidCms(cms')
  {
    seq(CMS_ROWS, r requires 0 <= r < CMS_ROWS =>
      if r < n then cms[r][h(ip, r) := Bump(cms[r][h(ip, r)])] else cms[r])
  }

  /** The smallest count of the address over the first `n` rows. */
  function Estimate(cms: Cms, h: CmsHash, ip: string, n: nat): (e: nat)
    requires ValidHash(h) && ValidCms(cms) && n <= CMS_ROWS
    ensures e <= MAX_UINT16 && forall r | 0 <= r < n :: e <= Cell(cms, h, ip, r)
    ensures e == MAX_UINT16 || exists r :: 0 <= r < n && e == Cell(cms, h, ip, r)
  {
    if n == 0 then MAX_UINT16
    else
      var e, v := Estimate(cms, h, ip, n - 1), Cell(cms, h, ip, n - 1);
      if v < e then v else e
  }

  function Halved(cms: Cms): (cms': Cms)
    requires ValidCms(cms)
    ensures ValidCms(cms')
  {
    seq(CMS_ROWS, r requires 0 <= r < CMS_ROWS => seq(CMS_COLS, c requires 0 <= c < CMS_COLS => cms[r][c] / 2))
  }

  function Cleared(): (cms: Cms)
    ensures ValidCms(cms)
  {
    seq(CMS_ROWS, r => seq(CMS_COLS, c => 0))
  }

  /** The tokens added over some time. */
  function Earned(rate: real, elapsed: real): (t: real)
    ensures rate >= 0.0 && elapsed >= 0.0 ==> t >= 0.0
    ensures elapsed == 0.0 ==> t == 0.0
  {
    rate * elapsed
  }

  lemma {:induction false} EarnedIsProduct(rate: real, elapsed: real)
    ensures Earned(rate, elapsed) == rate * elapsed
  {}

  lemma {:induction false} EarnedSplit(rate: real, a: real, b: real, c: real)
    ensures Earned(rate, c - a) == Earned(rate, b - a) + Earned(rate, c - b)
  {}

  function Refill(l: Limits, s: Limiter, now: real): Limiter {
    var elapsed := now - s.lastRefill;
    if elapsed <= 0.0 then s
    else
      var tokens := s.tokens + Earned(l.refillRate, elapsed);
      s.(tokens := if tokens > l.maxTokens then l.maxTokens else tokens, lastRefill := now)
  }

  function Drop(s: Limiter): Limiter {
    s.(dropped := (s.dropped + 1) % TWO64)
  }

  /** The limiter after one request, and whether the request may pass. */
  function Decide(l: Limits, h: CmsHash, s: Limiter, ip: string, now: real): (Limiter, bool)
    requires ValidHash(h) && ValidCms(s.cms)
  {
    var s1 := Refill(l, s, now);
    if s1.tokens < 1.0 then (Drop(s1), false)
    else
      var s2 := s1.(cms := BumpRows(s1.cms, h, ip, CMS_ROWS));
      if Estimate(s2.cms, h, ip, CMS_ROWS) > l.perIPLimit then (Drop(s2), false)
      else (s2.(tokens := s2.tokens - 1.0), true)
  }

  function Restarted(l: Limits, s: Limiter, now: real): Limiter {
    Limiter(l.maxTokens, now, Cleared(), s.dropped)
  }

  // ----- runs -----

  datatype Op = Request(ip: string, now: real) | Decay | ResetAt(now: real)

  function Next(l: Limits, h: CmsHash, s: Limiter, op: Op): (s': Limiter)
    requires ValidHash(h) && ValidCms(s.cms)
    ensures ValidCms(s'.cms)
  {
    match op
    case Request(ip, now) => Decide(l, h, s, ip, now).0
    case Decay => s.(cms := Halved(s.cms))
    case ResetAt(now) => Restarted(l, s, now)
  }

  predicate Passes(l: Limits, h: CmsHash, s: Limiter, op: Op)
    requires ValidHash(h) && ValidCms(s.cms)
  {
    op.Request? && Decide(l, h, s, op.ip, op.now).1
  }

  ghost function Run(l: Limits, h: CmsHash, s: Limiter, ops: seq<Op>): (s': Limiter)
    requires ValidHash(h) && ValidCms(s.cms)
    ensures ValidCms(s'.cms)
    decreases |ops|
  {
    if ops == [] then s else Run(l, h, Next(l, h, s, ops[0]), ops[1..])
  }

  /** How many requests pass, all of them or those of one address. */
  ghost function Allowed(l: Limits, h: CmsHash, s: Limiter, ops: seq<Op>): nat
    requires ValidHash(h) && ValidCms(s.cms)
    decreases |ops|
  {
    if ops == [] then 0
    else (if Passes(l, h, s, ops[0]) then 1 else 0) + Allowed(l, h, Next(l, h, s, ops[0]), ops[1..])
  }

  ghost function AllowedFor(l: Limits, h: CmsHash, s: Limiter, ops: seq<Op>, ip: string): nat
    requires ValidHash(h) && ValidCms(s.cms)
    decreases |ops|
  {
    if ops == [] then 0
    else (if Passes(l, h, s, ops[0]) && ops[0].ip == ip then 1 else 0)
         + AllowedFor(l, h, Next(l, h, s, ops[0]), ops[1..], ip)
  }

  function Decays(ops: seq<Op>): nat {
    if ops == [] then 0 else (if ops[0].Decay? then 1 else 0) + Decays(ops[1..])
  }

  function Resets(ops: seq<Op>): nat {
    if ops == [] then 0 else (if ops[0].ResetAt? then 1 else 0) + Resets(ops[1..])
  }

  function Requests(ops: seq<Op>): nat {
    if ops == [] then 0 else (if ops[0].Request? then 1 else 0) + Requests(ops[1..])
  }

  // ----- the per-address bound -----

  /** Every counter of the address is at least `n`. */
  ghost predicate AtLeast(cms: Cms, h: CmsHash, ip: string, n: nat)
    requires ValidHash(h) && ValidCms(cms)
  {
    forall r | 0 <= r < CMS_ROWS :: n <= Cell(cms, h, ip, r)
  }

  lemma {:induction false} BumpAtLeast(cms: Cms, h: CmsHash, ip: string, ip': string, n: nat)
    requires ValidHash(h) && ValidCms(cms) && AtLeast(cms, h, ip, n) && n <= MAX_UINT16
    ensures AtLeast(BumpRows(cms, h, ip', CMS_ROWS), h, ip, if ip == ip' then Bump(n) else n)
  {
    forall r | 0 <= r < CMS_ROWS
      ensures (if ip == ip' then Bump(n) else n) <= Cell(BumpRows(cms, h, ip', CMS_ROWS), h, ip, r)
    {
      CellBumped(cms, h, ip, ip', r);
      assert n <= Cell(cms, h, ip, r);
    }
  }

  lemma {:induction false} CellBumped(cms: Cms, h: CmsHash, ip: string, ip': string, r: nat)
    requires ValidHash(h) && ValidCms(cms) && r < CMS_ROWS
    ensures Cell(BumpRows(cms, h, ip', CMS_ROWS), h, ip, r) ==
            if h(ip, r) == h(ip', r) then Bump(Cell(cms, h, ip, r)) else Cell(cms, h, ip, r)
  {
    assert h(ip, r) < CMS_COLS && h(ip', r) < CMS_COLS;
  }

  lemma {:induction false} CellHalved(cms: Cms, h: CmsHash, ip: string, r: nat)
    requires ValidHash(h) && ValidCms(cms) && r < CMS_ROWS
    ensures Cell(Halved(cms), h, ip, r) == Cell(cms, h, ip, r) / 2
  {
    assert h(ip, r) < CMS_COLS;
  }

  lemma {:induction false} HalveAtLeast(cms: Cms, h: CmsHash, ip: string, n: nat)
    requires ValidHash(h) && ValidCms(cms) && AtLeast(cms, h, ip, n)
    ensures AtLeast(Halved(cms), h, ip, n / 2)
  {
    forall r | 0 <= r < CMS_ROWS ensures n / 2 <= Cell(Halved(cms), h, ip, r) {
      CellHalved(cms, h, ip, r);
      assert n <= Cell(cms, h, ip, r);
    }
  }

  function Min(a: nat, b: nat): nat {
    if a <= b then a else b
  }

  /** A lower bound n on the address's counters leaves it only that much less room. */
  lemma {:induction false} AllowedAbove(l: Limits, h: CmsHash, s: Limiter, ops: seq<Op>, ip: string, n: nat)
    requires ValidHash(h) && ValidCms(s.cms) && l.perIPLimit < MAX_UINT16 && Resets(ops) == 0
    requires AtLeast(s.cms, h, ip, n) && n <= MAX_UINT16
    ensures AllowedFor(l, h, s, ops, ip) + Min(n, l.perIPLimit) <= l.perIPLimit + Decays(ops) * ((l.perIPLimit + 1) / 2)
    decreases |ops|
  {
    if ops != [] {
      var op, s', rest := ops[0], Next(l, h, s, ops[0]), ops[1..];
      var half := (l.perIPLimit + 1) / 2;
      var n' := if op.Decay? then n / 2
                else if op.ip == ip && !(Refill(l, s, op.now).tokens < 1.0) then Bump(n) else n;
      if op.Decay? {
        HalveAtLeast(s.cms, h, ip, n);
        assert Decays(ops) * half == Decays(rest) * half + half;
      } else {
        BumpAtLeast(s.cms, h, ip, op.ip, n);
      }
      AllowedAbove(l, h, s', rest, ip, n');
    }
  }

  /** From any state on and as long as there is no reset, an address passes at most
      L + d * ceil(L / 2) times while the counters decay d times. */
  lemma {:induction false} PerAddressBound(l: Limits, h: CmsHash, s: Limiter, ops: seq<Op>, ip: string)
    requires ValidHash(h) && ValidCms(s.cms) && l.perIPLimit < MAX_UINT16 && Resets(ops) == 0
    ensures AllowedFor(l, h, s, ops, ip) <= l.perIPLimit + Decays(ops) * ((l.perIPLimit + 1) / 2)
  {
    AllowedAbove(l, h, s, ops, ip, 0);
  }

  /** Every counter of the address is `n`. */
  ghost predicate AllEqual(cms: Cms, h: CmsHash, ip: string, n: nat)
    requires ValidHash(h) && ValidCms(cms)
  {
    forall r | 0 <= r < CMS_ROWS :: Cell(cms, h, ip, r) == n
  }

  lemma {:induction false} RequestPasses(l: Limits, h: CmsHash, s: Limiter, ip: string, n: nat)
    requires ValidHash(h) && ValidCms(s.cms) && AllEqual(s.cms, h, ip, n) && n < l.perIPLimit < MAX_UINT16
    requires s.tokens >= 1.0
    ensures var op := Request(ip, s.lastRefill);
      && Passes(l, h, s, op) && AllEqual(Next(l, h, s, op).cms, h, ip, n + 1)
      && Next(l, h, s, op).tokens == s.tokens - 1.0
  {
    var after := BumpRows(s.cms, h, ip, CMS_ROWS);
    forall r | 0 <= r < CMS_ROWS ensures Cell(after, h, ip, r) == n + 1 {
      CellBumped(s.cms, h, ip, ip, r);
      assert Cell(s.cms, h, ip, r) == n;
    }
    hide BumpRows, Cell, ValidCms;
    assert Refill(l, s, s.lastRefill) == s;
    assert Estimate(after, h, ip, CMS_ROWS) <= Cell(after, h, ip, 0);
  }

  lemma {:induction false} HalveEqual(cms: Cms, h: CmsHash, ip: string, n: nat)
    requires ValidHash(h) && ValidCms(cms) && AllEqual(cms, h, ip, n)
    ensures AllEqual(Halved(cms), h, ip, n / 2)
  {
    forall r | 0 <= r < CMS_ROWS ensures Cell(Halved(cms), h, ip, r) == n / 2 {
      CellHalved(cms, h, ip, r);
      assert Cell(cms, h, ip, r) == n;
    }
  }

  /** What an address may still pass, its counters standing at `n`, over `d` decays. */
  function Room(limit: nat, n: nat, d: nat): nat
    requires n <= limit
  {
    limit - n + d * ((limit + 1) / 2)
  }

  lemma {:induction false} RoomAfterDecay(limit: nat, d: nat)
    requires d > 0
    ensures Room(limit, limit / 2, d - 1) == Room(limit, limit, d)
  {
    assert d * ((limit + 1) / 2) == (d - 1) * ((limit + 1) / 2) + (limit + 1) / 2;
  }

  /** Spend the room, decay, and spend again. */
  lemma {:induction false} RoomIsUsed(l: Limits, h: CmsHash, s: Limiter, ip: string, n: nat, d: nat) returns (ops: seq<Op>)
    requires ValidHash(h) && ValidCms(s.cms) && AllEqual(s.cms, h, ip, n) && n <= l.perIPLimit < MAX_UINT16
    requires s.tokens >= Room(l.perIPLimit, n, d) as real
    ensures Resets(ops) == 0 && Decays(ops) == d
    ensures AllowedFor(l, h, s, ops, ip) == Room(l.perIPLimit, n, d)
    decreases d, l.perIPLimit - n
  {
    if n < l.perIPLimit {
      var op := Request(ip, s.lastRefill);
      assert Room(l.perIPLimit, n, d) == Room(l.perIPLimit, n + 1, d) + 1;
      RequestPasses(l, h, s, ip, n);
      hide Next, Passes, AllEqual, Room, ValidCms;
      var rest := RoomIsUsed(l, h, Next(l, h, s, op), ip, n + 1, d);
      ops := [op] + rest;
      assert ops[1..] == rest;
    } else if d > 0 {
      HalveEqual(s.cms, h, ip, n);
      RoomAfterDecay(n, d);
      hide AllEqual, Room, ValidCms, Halved;
      var rest := RoomIsUsed(l, h, Next(l, h, s, Decay), ip, n / 2, d - 1);
      ops := [Decay] + rest;
      assert ops[1..] == rest;
    } else {
      ops := [];
    }
  }

  /** For every limit that can bind, every number of decays and every address there is a run from
      cleared counters in which the address passes exactly that often. */
  lemma {:induction false} PerAddressBoundAttained(limit: nat, d: nat, h: CmsHash, ip: string)
    returns (l: Limits, s: Limiter, ops: seq<Op>)
    requires ValidHash(h) && limit < MAX_UINT16
    ensures l.perIPLimit == limit && s.cms == Cleared() && s.tokens <= l.maxTokens
    ensures Resets(ops) == 0 && Decays(ops) == d
    ensures AllowedFor(l, h, s, ops, ip) == limit + d * ((limit + 1) / 2)
  {
    var tokens := Room(limit, 0, d) as real;
    l := Limits(tokens, 0.0, limit);
    s := Limiter(tokens, 0.0, Cleared(), 0);
    assert AllEqual(s.cms, h, ip, 0) by {
      assert forall r: nat :: h(ip, r) < CMS_COLS;
    }
    ops := RoomIsUsed(l, h, s, ip, 0, d);
  }

  /** The per-address limit can bind at all exactly when it is below the saturation value. */
  lemma {:induction false} LimitBindsIff(l: Limits, h: CmsHash)
    requires ValidHash(h)
    ensures l.perIPLimit < MAX_UINT16 <==>
      exists s: Limiter, ip, now ::
        ValidCms(s.cms) && Refill(l, s, now).tokens >= 1.0 && !Decide(l, h, s, ip, now).1
  {
    if l.perIPLimit < MAX_UINT16 {
      var full: Cms := seq(CMS_ROWS, r => seq(CMS_COLS, c => MAX_UINT16));
      var s := Limiter(1.0, 0.0, full, 0);
      var after := BumpRows(full, h, "", CMS_ROWS);
      forall r | 0 <= r < CMS_ROWS ensures Cell(after, h, "", r) == MAX_UINT16 {
        CellBumped(full, h, "", "", r);
      }
      assert Refill(l, s, 0.0) == s;
      assert !Decide(l, h, s, "", 0.0).1;
    }
  }

  // ----- what an estimate says about the true count -----

  /** A counter of its own for one address, with the same increments, saturation and halvings. */
  ghost function Exact(l: Limits, h: CmsHash, s: Limiter, ops: seq<Op>, ip: string, n: nat): nat
    requires ValidHash(h) && ValidCms(s.cms)
    decreases |ops|
  {
    if ops == [] then n else Exact(l, h, Next(l, h, s, ops[0]), ops[1..], ip, Count(l, s, ops[0], ip, n))
  }

  function Count(l: Limits, s: Limiter, op: Op, ip: string, n: nat): nat {
    match op
    case Request(ip', now) => if ip' == ip && !(Refill(l, s, now).tokens < 1.0) then Bump(n) else n
    case Decay => n / 2
    case ResetAt(_) => 0
  }

  /** No other address that occurs shares the column of `ip` in row `r`. */
  ghost predicate Alone(h: CmsHash, ops: seq<Op>, ip: string, r: nat) {
    forall i | 0 <= i < |ops| && ops[i].Request? && ops[i].ip != ip :: h(ops[i].ip, r) != h(ip, r)
  }

  lemma {:induction false} CellStep(l: Limits, h: CmsHash, s: Limiter, op: Op, ip: string, r: nat, n: nat)
    requires ValidHash(h) && ValidCms(s.cms) && r < CMS_ROWS
    requires n <= Cell(s.cms, h, ip, r)
    ensures Count(l, s, op, ip, n) <= Cell(Next(l, h, s, op).cms, h, ip, r)
    ensures n == Cell(s.cms, h, ip, r) && (op.Request? && op.ip != ip ==> h(op.ip, r) != h(ip, r)) ==>
              Count(l, s, op, ip, n) == Cell(Next(l, h, s, op).cms, h, ip, r)
  {
    match op
    case Request(ip', now) => CellBumped(s.cms, h, ip, ip', r);
    case Decay => CellHalved(s.cms, h, ip, r);
    case ResetAt(_) => assert h(ip, r) < CMS_COLS;
  }

  lemma {:induction false} CellRun(l: Limits, h: CmsHash, s: Limiter, ops: seq<Op>, ip: string, r: nat, n: nat)
    requires ValidHash(h) && ValidCms(s.cms) && r < CMS_ROWS && n <= Cell(s.cms, h, ip, r)
    ensures Exact(l, h, s, ops, ip, n) <= Cell(Run(l, h, s, ops).cms, h, ip, r)
    ensures Alone(h, ops, ip, r) && n == Cell(s.cms, h, ip, r) ==>
              Exact(l, h, s, ops, ip, n) == Cell(Run(l, h, s, ops).cms, h, ip, r)
    decreases |ops|
  {
    if ops != [] {
      CellStep(l, h, s, ops[0], ip, r, n);
      CellRun(l, h, Next(l, h, s, ops[0]), ops[1..], ip, r, Count(l, s, ops[0], ip, n));
      assert Alone(h, ops, ip, r) ==> Alone(h, ops[1..], ip, r);
    }
  }

  /** From cleared counters on, an estimate never falls below the exact count, and is exact as soon
      as in one row no other requesting address collides. */
  lemma {:induction false} EstimateBrackets(l: Limits, h: CmsHash, s: Limiter, ops: seq<Op>, ip: string)
    requires ValidHash(h) && s.cms == Cleared()
    ensures Exact(l, h, s, ops, ip, 0) <= Estimate(Run(l, h, s, ops).cms, h, ip, CMS_ROWS)
    ensures (exists r: nat :: r < CMS_ROWS && Alone(h, ops, ip, r)) ==>
              Exact(l, h, s, ops, ip, 0) == Estimate(Run(l, h, s, ops).cms, h, ip, CMS_ROWS)
  {
    forall r: nat | r < CMS_ROWS
      ensures Exact(l, h, s, ops, ip, 0) <= Cell(Run(l, h, s, ops).cms, h, ip, r)
      ensures Alone(h, ops, ip, r) ==> Exact(l, h, s, ops, ip, 0) == Cell(Run(l, h, s, ops).cms, h, ip, r)
    {
      assert h(ip, r) < CMS_COLS;
      CellRun(l, h, s, ops, ip, r, 0);
    }
    assert Exact(l, h, s, ops, ip, 0) <= Cell(Run(l, h, s, ops).cms, h, ip, 0) <= MAX_UINT16;
  }

  // ----- the verdict -----

  /** A request passes exactly when the refilled bucket has a token and some row's counter of the
      address is, with this request, within the limit; passing costs one token and nothing else does. */
  lemma {:induction false} PassesIff(l: Limits, h: CmsHash, s: Limiter, ip: string, now: real)
    requires ValidHash(h) && ValidCms(s.cms)
    ensures var level, passes := Refill(l, s, now).tokens, Passes(l, h, s, Request(ip, now));
      && (passes <==> level >= 1.0 && exists r: nat :: r < CMS_ROWS && Bump(Cell(s.cms, h, ip, r)) <= l.perIPLimit)
      && Next(l, h, s, Request(ip, now)).tokens == level - if passes then 1.0 else 0.0
  {
    var after := BumpRows(s.cms, h, ip, CMS_ROWS);
    var e := Estimate(after, h, ip, CMS_ROWS);
    forall r: nat | r < CMS_ROWS ensures Cell(after, h, ip, r) == Bump(Cell(s.cms, h, ip, r)) {
      CellBumped(s.cms, h, ip, ip, r);
    }
    SmallestRow(after, h, ip, l.perIPLimit);
    hide BumpRows, Estimate, Cell, ValidCms, Bump;
    assert (exists r: nat :: r < CMS_ROWS && Bump(Cell(s.cms, h, ip, r)) <= l.perIPLimit) <==> e <= l.perIPLimit;
  }

  lemma {:induction false} SmallestRow(cms: Cms, h: CmsHash, ip: string, limit: nat)
    requires ValidHash(h) && ValidCms(cms)
    ensures Estimate(cms, h, ip, CMS_ROWS) <= limit <==> exists r: nat :: r < CMS_ROWS && Cell(cms, h, ip, r) <= limit
  {
    var e := Estimate(cms, h, ip, CMS_ROWS);
    assert e <= Cell(cms, h, ip, 0) by {
      assert forall r | 0 <= r < CMS_ROWS :: e <= Cell(cms, h, ip, r);
    }
    assert h(ip, 0) < CMS_COLS;
    if e == MAX_UINT16 {
      assert Cell(cms, h, ip, 0) == e;
    } else {
      var r :| 0 <= r < CMS_ROWS && e == Cell(cms, h, ip, r);
      assert r as nat < CMS_ROWS;
    }
  }

  /** From cleared counters on, an address that collides with no other in some row is judged by its
      own requests alone: one with a token to take passes exactly when the exact count allows it. */
  lemma {:induction false} VerdictExact(l: Limits, h: CmsHash, s: Limiter, ops: seq<Op>, ip: string, now: real, r: nat)
    requires ValidHash(h) && s.cms == Cleared() && r < CMS_ROWS && Alone(h, ops + [Request(ip, now)], ip, r)
    ensures var t := Run(l, h, s, ops);
      Passes(l, h, t, Request(ip, now)) <==>
        Refill(l, t, now).tokens >= 1.0 && Bump(Exact(l, h, s, ops, ip, 0)) <= l.perIPLimit
  {
    var t, n := Run(l, h, s, ops), Exact(l, h, s, ops, ip, 0);
    assert Alone(h, ops, ip, r) by {
      forall i | 0 <= i < |ops| && ops[i].Request? && ops[i].ip != ip ensures h(ops[i].ip, r) != h(ip, r) {
        assert (ops + [Request(ip, now)])[i] == ops[i];
      }
    }
    forall k: nat | k < CMS_ROWS ensures n <= Cell(t.cms, h, ip, k) {
      assert h(ip, k) < CMS_COLS;
      CellRun(l, h, s, ops, ip, k, 0);
    }
    assert h(ip, r) < CMS_COLS;
    CellRun(l, h, s, ops, ip, r, 0);
    PassesIff(l, h, t, ip, now);
    hide Passes, Cell, Exact, Run, Refill, Cleared, ValidCms;
    assert Bump(Cell(t.cms, h, ip, r)) == Bump(n);
  }

  // ----- the global bound -----

  ghost predicate ValidTokens(l: Limits, s: Limiter) {
    0.0 <= s.tokens <= l.maxTokens && 0.0 <= l.refillRate && ValidCms(s.cms)
  }

  /** The clock never runs backwards, from the last refill on. */
  ghost predicate Monotone(from: real, ops: seq<Op>)
    decreases |ops|
  {
    ops != [] ==> match ops[0]
                  case Decay => Monotone(from, ops[1..])
                  case Request(_, now) => from <= now && Monotone(now, ops[1..])
                  case ResetAt(now) => from <= now && Monotone(now, ops[1..])
  }

  lemma {:induction false} TokensStep(l: Limits, h: CmsHash, s: Limiter, op: Op)
    requires ValidHash(h) && ValidTokens(l, s) && Monotone(s.lastRefill, [op])
    ensures var s' := Next(l, h, s, op);
      && ValidTokens(l, s') && s.lastRefill <= s'.lastRefill
      && s'.lastRefill == (if op.Decay? then s.lastRefill else op.now)
      && s'.tokens + (if Passes(l, h, s, op) then 1.0 else 0.0)
         <= s.tokens + Earned(l.refillRate, s'.lastRefill - s.lastRefill) + (if op.ResetAt? then l.maxTokens else 0.0)
  {
    hide Earned, BumpRows, Estimate, Halved, Cleared;
  }

  function MinReal(a: real, b: real): real {
    if a <= b then a else b
  }

  /** The bucket after a refill: the rate times the time since the last one is added, up to the
      maximum, and a clock that has not moved on adds nothing. */
  lemma {:induction false} RefillLevel(l: Limits, s: Limiter, now: real)
    ensures var s' := Refill(l, s, now);
      && s'.tokens == (if now <= s.lastRefill then s.tokens
                       else MinReal(l.maxTokens, s.tokens + l.refillRate * (now - s.lastRefill)))
      && s'.lastRefill == (if now <= s.lastRefill then s.lastRefill else now)
      && s'.cms == s.cms && s'.dropped == s.dropped
  {}

  /** The time of the last request or reset. */
  function LastTime(from: real, ops: seq<Op>): real
    decreases |ops|
  {
    if ops == [] then from else LastTime(if ops[0].Decay? then from else ops[0].now, ops[1..])
  }

  lemma {:induction false} IdleEarned(l: Limits, h: CmsHash, s: Limiter, ops: seq<Op>)
    requires ValidHash(h) && ValidTokens(l, s) && Monotone(s.lastRefill, ops)
    requires Allowed(l, h, s, ops) == 0 && Resets(ops) == 0
    ensures var t := Run(l, h, s, ops);
      && t.lastRefill == LastTime(s.lastRefill, ops) && t.lastRefill >= s.lastRefill
      && t.tokens == MinReal(l.maxTokens, s.tokens + Earned(l.refillRate, t.lastRefill - s.lastRefill))
    decreases |ops|
  {
    hide Next, Passes, ValidCms, Earned, MinReal, Monotone, Allowed, Resets;
    if ops == [] {
      IdleBase(l, s);
    } else {
      var s', rest := Next(l, h, s, ops[0]), ops[1..];
      IdleFirst(l, h, s, ops);
      IdleEarned(l, h, s', rest);
      var last := LastTime(s'.lastRefill, rest);
      EarnedSplit(l.refillRate, s.lastRefill, s'.lastRefill, last);
      MinTwice(l.maxTokens, s.tokens, Earned(l.refillRate, s'.lastRefill - s.lastRefill), Earned(l.refillRate, last - s'.lastRefill));
    }
  }

  lemma {:induction false} IdleBase(l: Limits, s: Limiter)
    requires ValidTokens(l, s)
    ensures s.tokens == MinReal(l.maxTokens, s.tokens + Earned(l.refillRate, s.lastRefill - s.lastRefill))
  {
    hide ValidCms;
  }

  lemma {:induction false} IdleFirst(l: Limits, h: CmsHash, s: Limiter, ops: seq<Op>)
    requires ValidHash(h) && ValidTokens(l, s) && Monotone(s.lastRefill, ops) && ops != []
    requires Allowed(l, h, s, ops) == 0 && Resets(ops) == 0
    ensures var s', rest := Next(l, h, s, ops[0]), ops[1..];
      && ValidTokens(l, s') && Monotone(s'.lastRefill, rest) && Allowed(l, h, s', rest) == 0 && Resets(rest) == 0
      && s.lastRefill <= s'.lastRefill == (if ops[0].Decay? then s.lastRefill else ops[0].now)
      && s'.tokens == MinReal(l.maxTokens, s.tokens + Earned(l.refillRate, s'.lastRefill - s.lastRefill))
  {
    IdleRest(l, h, s, ops);
    assert Monotone(s.lastRefill, [ops[0]]);
    TokensStep(l, h, s, ops[0]);
    IdleStep(l, h, s, ops[0]);
    hide *;
  }

  lemma {:induction false} IdleRest(l: Limits, h: CmsHash, s: Limiter, ops: seq<Op>)
    requires ValidHash(h) && ValidTokens(l, s) && Monotone(s.lastRefill, ops) && ops != []
    requires Allowed(l, h, s, ops) == 0 && Resets(ops) == 0
    ensures !Passes(l, h, s, ops[0]) && !ops[0].ResetAt? && Resets(ops[1..]) == 0
    ensures Allowed(l, h, Next(l, h, s, ops[0]), ops[1..]) == 0
    ensures Monotone(if ops[0].Decay? then s.lastRefill else ops[0].now, ops[1..])
  {
    hide Next, Passes, ValidCms;
  }

  lemma {:induction false} MinTwice(m: real, a: real, d: real, e: real)
    requires e >= 0.0
    ensures MinReal(m, MinReal(m, a + d) + e) == MinReal(m, a + (d + e))
  {}

  lemma {:induction false} IdleStep(l: Limits, h: CmsHash, s: Limiter, op: Op)
    requires ValidHash(h) && ValidTokens(l, s) && Monotone(s.lastRefill, [op])
    requires !op.ResetAt? && !Passes(l, h, s, op)
    ensures var s' := Next(l, h, s, op);
      s'.tokens == MinReal(l.maxTokens, s.tokens + Earned(l.refillRate, s'.lastRefill - s.lastRefill))
  {
    hide Earned, BumpRows, Estimate, Halved, ValidCms;
  }

  /** Over any stretch in which no request passes, however often the bucket is refilled in between,
      it fills linearly up to its maximum. */
  lemma {:induction false} IdleLevel(l: Limits, h: CmsHash, s: Limiter, ops: seq<Op>)
    requires ValidHash(h) && ValidTokens(l, s) && Monotone(s.lastRefill, ops)
    requires Allowed(l, h, s, ops) == 0 && Resets(ops) == 0
    ensures Run(l, h, s, ops).tokens ==
            MinReal(l.maxTokens, s.tokens + l.refillRate * (LastTime(s.lastRefill, ops) - s.lastRefill))
  {
    hide *;
    IdleEarned(l, h, s, ops);
    EarnedIsProduct(l.refillRate, LastTime(s.lastRefill, ops) - s.lastRefill);
  }

  /** A reset fills the bucket, clears every counter and keeps the drop count. */
  lemma {:induction false} ResetMeans(l: Limits, h: CmsHash, s: Limiter, now: real)
    requires ValidHash(h) && ValidCms(s.cms)
    ensures var s' := Next(l, h, s, ResetAt(now));
      && s'.tokens == l.maxTokens && s'.lastRefill == now && s'.dropped == s.dropped
      && forall ip, r: nat :: r < CMS_ROWS ==> Cell(s'.cms, h, ip, r) == 0
  {
    assert forall ip, r: nat :: h(ip, r) < CMS_COLS;
  }

  function Cost(n: nat, m: real): (t: real)
    ensures n == 0 ==> t == 0.0
  {
    n as real * m
  }

  lemma {:induction false} CostIsProduct(n: nat, m: real)
    ensures Cost(n, m) == n as real * m
  {}

  /** The tokens stay within the bucket, and over any run the requests that pass are paid for by
      the initial tokens, the refill over the elapsed time, and one full bucket per reset. */
  lemma {:induction false} GlobalBound(l: Limits, h: CmsHash, s: Limiter, ops: seq<Op>)
    requires ValidHash(h) && ValidTokens(l, s) && Monotone(s.lastRefill, ops)
    ensures var t := Run(l, h, s, ops);
      && ValidTokens(l, t)
      && Allowed(l, h, s, ops) as real + t.tokens
         <= s.tokens + Earned(l.refillRate, t.lastRefill - s.lastRefill) + Cost(Resets(ops), l.maxTokens)
    decreases |ops|
  {
    hide Next, Passes, ValidCms, Earned, Cost;
    if ops != [] {
      var op, s', rest := ops[0], Next(l, h, s, ops[0]), ops[1..];
      var t := Run(l, h, s, ops);
      assert Monotone(s.lastRefill, [op]);
      TokensStep(l, h, s, op);
      GlobalBound(l, h, s', rest);
      EarnedSplit(l.refillRate, s.lastRefill, s'.lastRefill, t.lastRefill);
      OneMore(Resets(rest), l.maxTokens);
    }
  }

  lemma {:induction false} OneMore(n: nat, m: real)
    ensures Cost(n + 1, m) == Cost(n, m) + m
  {
    assert (n + 1) as real == n as real + 1.0;
  }

  lemma {:induction false} DroppedStep(l: Limits, h: CmsHash, s: Limiter, op: Op)
    requires ValidHash(h) && ValidCms(s.cms) && s.dropped < TWO64
    ensures Next(l, h, s, op).dropped == (s.dropped + if op.Request? && !Passes(l, h, s, op) then 1 else 0) % TWO64
  {}

  /** Every request either passes or is counted as dropped (by a uint64 counter). */
  lemma {:induction false} PassedOrDropped(l: Limits, h: CmsHash, s: Limiter, ops: seq<Op>)
    requires ValidHash(h) && ValidCms(s.cms) && s.dropped < TWO64
    ensures Allowed(l, h, s, ops) <= Requests(ops)
    ensures Run(l, h, s, ops).dropped == (s.dropped + (Requests(ops) - Allowed(l, h, s, ops))) % TWO64
    decreases |ops|
  {
    if ops != [] {
      var s' := Next(l, h, s, ops[0]);
      DroppedStep(l, h, s, ops[0]);
      hide Next;
      PassedOrDropped(l, h, s', ops[1..]);
      WrapAdd(Requests(ops[1..]) - Allowed(l, h, s', ops[1..]),
              s.dropped + if ops[0].Request? && !Passes(l, h, s, ops[0]) then 1 else 0, TWO64);
    }
  }

  // ----- the object -----

  /** One iteration of the increment loop: row r is bumped, and only then does it count. */
  lemma {:induction false} BumpNext(before: Cms, done: Cms, now: Cms, h: CmsHash, ip: string, r: nat)
    requires ValidHash(h) && ValidCms(before) && r < CMS_ROWS && done == BumpRows(before, h, ip, r)
    requires h(ip, r) < CMS_COLS && |now| == CMS_ROWS
    requires forall k | 0 <= k < CMS_ROWS :: now[k] == if k == r then done[r][h(ip, r) := Bump(done[r][h(ip, r)])] else done[k]
    ensures now == BumpRows(before, h, ip, r + 1)
    ensures ValidCms(now) && Estimate(now, h, ip, r + 1) ==
            if now[r][h(ip, r)] < Estimate(done, h, ip, r) then now[r][h(ip, r)] else Estimate(done, h, ip, r)
  {
    assert now == BumpRows(before, h, ip, r + 1);
    SameRowsSameEstimate(done, now, h, ip, r);
  }

  lemma {:induction false} SameRowsSameEstimate(a: Cms, b: Cms, h: CmsHash, ip: string, n: nat)
    requires ValidHash(h) && ValidCms(a) && ValidCms(b) && n <= CMS_ROWS && a[..n] == b[..n]
    ensures Estimate(a, h, ip, n) == Estimate(b, h, ip, n)
  {
    if n != 0 {
      assert a[..n - 1] == a[..n][..n - 1] && b[..n - 1] == b[..n][..n - 1];
      assert a[n - 1] == a[..n][n - 1] && b[n - 1] == b[..n][n - 1];
      SameRowsSameEstimate(a, b, h, ip, n - 1);
    }
  }

  class RateLimiter {
    var tokens: real
    const maxTokens: real
    const refillRate: real
    var lastRefill: real
    const cms: array2<nat>
    const perIPLimit: nat
    var dropped: nat
    const cmsHash: CmsHash

    ghost function Row(r: nat): (row: seq<nat>)
      requires r < cms.Length0
      reads cms
      ensures |row| == cms.Length1 && forall c | 0 <= c < |row| :: row[c] == cms[r, c]
    {
      seq(cms.Length1, c requires 0 <= c < cms.Length1 reads cms => cms[r, c])
    }

    ghost function Cells(): (cells: Cms)
      reads cms
      ensures |cells| == cms.Length0 && forall r | 0 <= r < |cells| :: cells[r] == Row(r)
    {
      seq(cms.Length0, r requires 0 <= r < cms.Length0 reads cms => Row(r))
    }

    ghost predicate Valid()
      reads this, cms
    {
      && cms.Length0 == CMS_ROWS && cms.Length1 == CMS_COLS
      && ValidCms(Cells()) && ValidHash(cmsHash)
      && perIPLimit <= MAX_UINT16 && dropped < TWO64
      && 0.0 <= tokens <= maxTokens && 0.0 < refillRate
    }

    ghost function Limit(): Limits {
      Limits(maxTokens, refillRate, perIPLimit)
    }

    ghost function View(): Limiter
      reads this, cms
    {
      Limiter(tokens, lastRefill, Cells(), dropped)
    }

    /** NewRateLimiter: non-positive rates and a zero limit are replaced by defaults. */
    constructor (globalRPS: real, limit: nat, hash: CmsHash, now: real)
      requires ValidHash(hash) && limit <= MAX_UINT16
      ensures Valid() && fresh(cms) && cmsHash == hash
      ensures refillRate == (if globalRPS <= 0.0 then 1000.0 else globalRPS) && maxTokens == refillRate * 2.0
      ensures perIPLimit == (if limit == 0 then 50 else limit)
      ensures View() == Limiter(refillRate, now, Cleared(), 0)
    {
      var rps := if globalRPS <= 0.0 then 1000.0 else globalRPS;
      tokens, maxTokens, refillRate, lastRefill := rps, rps * 2.0, rps, now;
      perIPLimit := if limit == 0 then 50 else limit;
      cms := new nat[CMS_ROWS, CMS_COLS]((r, c) => 0);
      cmsHash := hash;
      dropped := 0;
      new;
      assert forall r | 0 <= r < CMS_ROWS :: Row(r) == Cleared()[r];
      assert Cells() == Cleared();
    }

    /** The saturating increment of one cell. */
    method BumpCell(r: nat, c: nat)
      requires r < cms.Length0 && c < cms.Length1
      modifies cms
      ensures forall k | 0 <= k < cms.Length0 ::
                Cells()[k] == if k == r then old(Row(r))[c := Bump(old(Row(r))[c])] else old(Cells())[k]
    {
      if cms[r, c] < MAX_UINT16 {
        cms[r, c] := cms[r, c] + 1;
      }
    }

    method CmsIncrement(ip: string) returns (minCount: nat)
      requires Valid()
      modifies cms
      ensures Valid() && Cells() == BumpRows(old(Cells()), cmsHash, ip, CMS_ROWS)
      ensures minCount == Estimate(Cells(), cmsHash, ip, CMS_ROWS)
    {
      ghost var before := Cells();
      assert Cells() == BumpRows(before, cmsHash, ip, 0);
      minCount := MAX_UINT16;
      assert minCount == Estimate(before, cmsHash, ip, 0);
      hide BumpRows, Estimate;
      for r := 0 to CMS_ROWS
        invariant ValidCms(Cells()) && Cells() == BumpRows(before, cmsHash, ip, r)
        invariant minCount == Estimate(Cells(), cmsHash, ip, r)
      {
        ghost var done := Cells();
        var col := cmsHash(ip, r);
        BumpCell(r, col);
        BumpNext(before, done, Cells(), cmsHash, ip, r);
        if cms[r, col] < minCount {
          minCount := cms[r, col];
        }
      }
    }

    method ShouldAllow(ip: string, now: real) returns (allowed: bool)
      requires Valid()
      modifies this, cms
      ensures Valid()
      ensures (View(), allowed) == Decide(Limit(), cmsHash, old(View()), ip, now)
    {
      hide ValidCms, BumpRows, Estimate, Refill, RateLimiter.Cells, RateLimiter.Row;
      DoRefill(now);
      if tokens < 1.0 {
        dropped := (dropped + 1) % TWO64;
        return false;
      }
      var count := CmsIncrement(ip);
      if count > perIPLimit {
        dropped := (dropped + 1) % TWO64;
        return false;
      }
      tokens := tokens - 1.0;
      return true;
    }

    method DoRefill(now: real)
      requires Valid()
      modifies this`tokens, this`lastRefill
      ensures Valid() && View() == Refill(Limit(), old(View()), now)
    {
      var elapsed := now - lastRefill;
      if elapsed <= 0.0 {
        return;
      }
      tokens := tokens + Earned(refillRate, elapsed);
      if tokens > maxTokens {
        tokens := maxTokens;
      }
      lastRefill := now;
    }

    /** Halves every counter. */
    method DecayCMS()
      requires Valid()
      modifies cms
      ensures Valid() && View() == old(View()).(cms := Halved(old(Cells())))
    {
      ghost var before := Cells();
      for r := 0 to CMS_ROWS
        invariant forall k | 0 <= k < r :: Row(k) == Halved(before)[k]
        invariant forall k | r <= k < CMS_ROWS :: Row(k) == before[k]
      {
        ghost var row := before[r];
        for c := 0 to CMS_COLS
          invariant forall k | 0 <= k < CMS_ROWS && k != r :: Row(k) == if k < r then Halved(before)[k] else before[k]
          invariant forall d | 0 <= d < CMS_COLS :: cms[r, d] == if d < c then row[d] / 2 else row[d]
        {
          cms[r, c] := cms[r, c] / 2;
        }
      }
      assert Cells() == Halved(before);
    }

    method Reset(now: real)
      requires Valid()
      modifies this`tokens, this`lastRefill, cms
      ensures Valid() && View() == Restarted(Limit(), old(View()), now)
    {
      for r := 0 to CMS_ROWS
        modifies cms
        invariant forall k, d | 0 <= k < r && 0 <= d < CMS_COLS :: cms[k, d] == 0
      {
        for c := 0 to CMS_COLS
          invariant forall k, d | 0 <= k < r && 0 <= d < CMS_COLS :: cms[k, d] == 0
          invariant forall d | 0 <= d < c :: cms[r, d] == 0
        {
          cms[r, c] := 0;
        }
      }
      assert forall r | 0 <= r < CMS_ROWS :: Row(r) == Cleared()[r];
      assert Cells() == Cleared();
      tokens := maxTokens;
      lastRefill := now;
    }
  }
}
