/** MockIssuer: tokens cached per human, minted again when too little of their lifetime is left. */
module TokenCache {
  import opened Sequences
  import opened Identity

  /** A token remembers who it was minted for. A token without expiry never expires. */
  datatype Token = Token(human: Human, expiry: Option<int>)

  /** What becomes of a mint once the human is valid. */
  datatype MintReply = NoConnection | Refused | Minted(expiry: Option<int>)

  datatype MintError = InvalidHuman(error: HumanError) | MintFailed

  function MintResult(h: Human, reply: MintReply): Result<Token, MintError> {
    if Validate(h).Some? then Err(InvalidHuman(Validate(h).value))
    else if reply.Minted? then Ok(Token(h, reply.expiry))
    else Err(MintFailed)
  }

  /** At least the margin is left. */
  predicate Reusable(token: Option<Token>, margin: int, now: int) {
    token.Some? && (token.value.expiry.Some? ==> token.value.expiry.value - margin >= now)
  }

  // ---------------------------------------------------------------- the machine

  /** One completed call. Use is a Token call: it begins once it holds the source's lock. */
  datatype Call = Ask(human: Human) | Use(human: Human, begin: int, end: int, reply: MintReply)

  /** The token each source holds, for every human that has a source. */
  type Cache = map<Human, Option<Token>>

  datatype Served = Nothing | Failed(error: MintError) | Cached(token: Token) | Fresh(token: Token)

  function Serve(cache: Cache, margin: int, call: Call): Served {
    if call.Ask? || call.human !in cache then Nothing
    else if Reusable(cache[call.human], margin, call.begin) then Cached(cache[call.human].value)
    else
      match MintResult(call.human, call.reply)
      case Err(error) => Failed(error)
      case Ok(token) => Fresh(token)
  }

  /** Whether a call reaches for the issuer. */
  predicate Connects(cache: Cache, margin: int, call: Call) {
    call.Use? && call.human in cache && !Reusable(cache[call.human], margin, call.begin) && Validate(call.human).None?
  }

  function Step(cache: Cache, margin: int, call: Call): Cache {
    match call
    case Ask(h) => if h in cache then cache else cache[h := None]
    case Use(h, _, _, _) =>
      match Serve(cache, margin, call)
      case Fresh(token) => cache[h := Some(token)]
      case _ => cache
  }

  function RunOf(margin: int, calls: seq<Call>): Cache {
    if calls == [] then map[] else Step(RunOf(margin, calls[..|calls| - 1]), margin, calls[|calls| - 1])
  }

  /** What the i-th call of a run is served. */
  function ServedAt(margin: int, calls: seq<Call>, i: nat): Served
    requires i < |calls|
  {
    Serve(RunOf(margin, calls[..i]), margin, calls[i])
  }

  // ---------------------------------------------------------------- what every run keeps

  ghost predicate OwnTokens(cache: Cache) {
    forall h :: h in cache && cache[h].Some? ==> cache[h].value.human == h
  }

  lemma {:induction false} RunKeepsOwnTokens(margin: int, calls: seq<Call>)
    ensures OwnTokens(RunOf(margin, calls))
  {
    if calls != [] { RunKeepsOwnTokens(margin, calls[..|calls| - 1]); }
  }

  /** In every run, whatever a call is served was minted for its own valid human, and is either fresh or has at least
      the margin left when the call begins. */
  lemma ServedTokenIsGood(margin: int, calls: seq<Call>, i: nat)
    requires i < |calls|
    ensures match ServedAt(margin, calls, i)
            case Cached(token) =>
              token.human == calls[i].human
              && (token.expiry.Some? ==> token.expiry.value >= calls[i].begin + margin)
            case Fresh(token) =>
              token.human == calls[i].human && Validate(calls[i].human).None?
              && calls[i].reply == Minted(token.expiry)
            case _ => true
  {
    RunKeepsOwnTokens(margin, calls[..i]);
  }

  /** What a use of a human's source is served: the held token while it has no expiry or the margin is left before it;
      otherwise what the issuer answers a valid human, and an error without asking for any other. */
  lemma ServedIs(cache: Cache, margin: int, h: Human, begin: int, end: int, reply: MintReply)
    requires h in cache
    ensures var served, held := Serve(cache, margin, Use(h, begin, end, reply)), cache[h];
            if held.Some? && (held.value.expiry == None || held.value.expiry.value - begin >= margin)
            then served == Cached(held.value)
            else
              && (Validate(h).Some? ==> served == Failed(InvalidHuman(Validate(h).value)))
              && (Validate(h).None? && reply.Minted? ==> served == Fresh(Token(h, reply.expiry)))
              && (Validate(h).None? && !reply.Minted? ==> served == Failed(MintFailed))
  {
  }

  /** A token without expiry is the last one ever minted for its human. */
  lemma {:induction false} NoExpiryLasts(margin: int, calls: seq<Call>, i: nat, j: nat)
    requires i < j < |calls| && calls[j].Use? && calls[j].human == calls[i].human
    requires ServedAt(margin, calls, i) == Fresh(Token(calls[i].human, None))
    ensures ServedAt(margin, calls, j) == Cached(Token(calls[i].human, None))
  {
    NoExpiryStays(margin, calls, i, j);
  }

  lemma {:induction false} NoExpiryStays(margin: int, calls: seq<Call>, i: nat, n: nat)
    requires i < n <= |calls| && ServedAt(margin, calls, i) == Fresh(Token(calls[i].human, None))
    ensures var cache := RunOf(margin, calls[..n]);
            calls[i].human in cache && cache[calls[i].human] == Some(Token(calls[i].human, None))
  {
    assert calls[..n][..n - 1] == calls[..n - 1];
    if i < n - 1 { NoExpiryStays(margin, calls, i, n - 1); }
  }

  /** A cached token is the one the latest call that was served a fresh one got. */
  lemma {:induction false} CachedWasFresh(margin: int, calls: seq<Call>, h: Human) returns (j: nat)
    requires h in RunOf(margin, calls) && RunOf(margin, calls)[h].Some?
    ensures j < |calls| && calls[j].human == h
    ensures ServedAt(margin, calls, j) == Fresh(RunOf(margin, calls)[h].value)
    ensures forall k :: j < k < |calls| && calls[k].human == h ==> !ServedAt(margin, calls, k).Fresh?
  {
    var n := |calls| - 1;
    var before := RunOf(margin, calls[..n]);
    if calls[n].human == h && Serve(before, margin, calls[n]).Fresh? {
      j := n;
    } else {
      j := CachedWasFresh(margin, calls[..n], h);
      forall k | 0 <= k < n ensures ServedAt(margin, calls, k) == ServedAt(margin, calls[..n], k) {
        assert calls[..n][..k] == calls[..k];
      }
    }
  }

  /** A call that is refused, and one for a human that is not valid, leave every cached token as it was; the latter
      never connects. */
  lemma FailureLeavesCache(cache: Cache, margin: int, call: Call)
    ensures Serve(cache, margin, call).Failed? ==> Step(cache, margin, call) == cache
    ensures Validate(call.human).Some? ==> !Connects(cache, margin, call) && !Serve(cache, margin, call).Fresh?
    ensures Serve(cache, margin, call).Fresh? ==> Connects(cache, margin, call)
  {
  }

  /** A use reads and writes the token of its own human only. */
  lemma UsesAreLocal(cache: Cache, margin: int, call: Call)
    requires call.Use? && call.human in cache
    ensures var own := map[call.human := cache[call.human]];
            && Serve(cache, margin, call) == Serve(own, margin, call)
            && Step(cache, margin, call) == cache + Step(own, margin, call)
  {
    assert cache + map[call.human := cache[call.human]] == cache;
  }

  // ---------------------------------------------------------------- how often a human is minted

  /** Every minted token lives at least "life" from the end of its mint. */
  ghost predicate LivesAtLeast(calls: seq<Call>, life: int) {
    forall i :: 0 <= i < |calls| && calls[i].Use? ==>
      calls[i].begin <= calls[i].end
      && (calls[i].reply.Minted? && calls[i].reply.expiry.Some? ==> calls[i].reply.expiry.value >= calls[i].end + life)
  }

  /** The begin times of a human's successful mints. */
  function MintTimes(margin: int, calls: seq<Call>, h: Human): seq<int> {
    if calls == [] then []
    else
      var n := |calls| - 1;
      MintTimes(margin, calls[..n], h)
      + if calls[n].human == h && ServedAt(margin, calls, n).Fresh? then [calls[n].begin] else []
  }

  /** The held token outlives the last mint by "life", and two mints in a row are further apart than life - margin. */
  lemma {:induction false} MintsAreSpaced(margin: int, calls: seq<Call>, h: Human, life: int)
    requires LivesAtLeast(calls, life)
    ensures Spaced(RunOf(margin, calls), MintTimes(margin, calls, h), h, margin, life)
  {
    if calls != [] {
      var n := |calls| - 1;
      assert LivesAtLeast(calls[..n], life);
      MintsAreSpaced(margin, calls[..n], h, life);
      assert RunOf(margin, calls) == Step(RunOf(margin, calls[..n]), margin, calls[n]);
      SpacedStep(margin, RunOf(margin, calls[..n]), MintTimes(margin, calls[..n], h), calls[n], h, life);
    }
  }

  ghost predicate Spaced(cache: Cache, times: seq<int>, h: Human, margin: int, life: int) {
    && (times != [] ==>
          h in cache && cache[h].Some?
          && (cache[h].value.expiry.Some? ==> cache[h].value.expiry.value >= times[|times| - 1] + life))
    && forall i :: 0 <= i < |times| - 1 ==> times[i + 1] > times[i] + (life - margin)
  }

  lemma SpacedStep(margin: int, cache: Cache, times: seq<int>, call: Call, h: Human, life: int)
    requires Spaced(cache, times, h, margin, life)
    requires call.Use? ==>
               && call.begin <= call.end
               && (call.reply.Minted? && call.reply.expiry.Some? ==> call.reply.expiry.value >= call.end + life)
    ensures var minted := call.human == h && Serve(cache, margin, call).Fresh?;
            Spaced(Step(cache, margin, call), times + if minted then [call.begin] else [], h, margin, life)
  {
    if call.human == h && Serve(cache, margin, call).Fresh? {
      var next := times + [call.begin];
      forall i | 0 <= i < |next| - 1 ensures next[i + 1] > next[i] + (life - margin) {
        if i == |times| - 1 { assert next[i] == times[i] && next[i + 1] == call.begin; }
      }
    }
  }

  lemma {:induction false} SpacedTimes(times: seq<int>, gap: int, i: nat, j: nat)
    requires gap > 0 && i <= j < |times|
    requires forall k :: 0 <= k < |times| - 1 ==> times[k + 1] > times[k] + gap
    ensures times[j] >= times[i] + (j - i) * gap
  {
    if i < j { SpacedTimes(times, gap, i, j - 1); }
  }

  /** When every token lives longer than the margin, a window holds at most window / (life - margin) + 1 mints of one
      human: of any mints from the i-th to the j-th inside it there are no more. */
  lemma MintRateIsBounded(margin: int, calls: seq<Call>, h: Human, life: int, start: int, window: nat, i: nat, j: nat)
    requires LivesAtLeast(calls, life) && life > margin
    requires i <= j < |MintTimes(margin, calls, h)|
    requires start <= MintTimes(margin, calls, h)[i] && MintTimes(margin, calls, h)[j] <= start + window
    ensures j - i + 1 <= window / (life - margin) + 1
  {
    var gap := life - margin;
    MintsAreSpaced(margin, calls, h, life);
    SpacedTimes(MintTimes(margin, calls, h), gap, i, j);
    QuotientBound(j - i, gap, window);
  }

  lemma QuotientBound(n: nat, gap: int, window: nat)
    requires gap > 0 && n * gap <= window
    ensures n <= window / gap
  {
    var q := window / gap;
    assert window == q * gap + window % gap;
    MultiplesGrow(q + 1, n, gap);
    assert (q + 1) * gap == q * gap + gap;
  }

  lemma {:induction false} MultiplesGrow(a: nat, b: nat, gap: nat)
    ensures a <= b ==> a * gap <= b * gap
  {
    if a < b {
      MultiplesGrow(a, b - 1, gap);
      assert b * gap == (b - 1) * gap + gap;
    }
  }

  /** A freshly minted token is minted again by the next use exactly when that begins with less than the margin left. */
  lemma MintedAgainIff(cache: Cache, margin: int, h: Human, begin: int, end: int, expiry: int, next: Call)
    requires h in cache && next.Use? && next.human == h
    requires Serve(cache, margin, Use(h, begin, end, Minted(Some(expiry)))).Fresh?
    ensures Connects(Step(cache, margin, Use(h, begin, end, Minted(Some(expiry)))), margin, next)
            <==> expiry - next.begin < margin
  {
  }

  /** When the i-th mint of a burst takes place: all at once when tokens live less than the margin, and a unit of time
      apart when they live exactly as long. */
  function BurstTime(margin: int, life: int, i: nat): int {
    if life < margin then 0 else i
  }

  /** A run that uses one human's source over and over, against an issuer whose tokens live "life". */
  function Burst(margin: int, h: Human, life: int, n: nat): seq<Call> {
    if n == 0 then [Ask(h)]
    else
      var now := BurstTime(margin, life, n - 1);
      Burst(margin, h, life, n - 1) + [Use(h, now, now, Minted(Some(now + life)))]
  }

  lemma {:induction false} BurstLives(margin: int, h: Human, life: int, n: nat)
    ensures LivesAtLeast(Burst(margin, h, life, n), life)
  {
    if n > 0 { BurstLives(margin, h, life, n - 1); }
  }

  function BurstTimes(margin: int, life: int, n: nat): (times: seq<int>)
    ensures |times| == n && forall i: nat :: i < n ==> times[i] == BurstTime(margin, life, i)
  {
    if n == 0 then [] else BurstTimes(margin, life, n - 1) + [BurstTime(margin, life, n - 1)]
  }

  function BurstToken(margin: int, h: Human, life: int, n: nat): Option<Token> {
    if n == 0 then None else Some(Token(h, Some(BurstTime(margin, life, n - 1) + life)))
  }

  lemma {:induction false} BurstOutcome(margin: int, h: Human, life: int, n: nat)
    requires Validate(h).None? && life <= margin
    ensures MintTimes(margin, Burst(margin, h, life, n), h) == BurstTimes(margin, life, n)
    ensures RunOf(margin, Burst(margin, h, life, n)) == map[h := BurstToken(margin, h, life, n)]
  {
    if n == 0 {
      BurstStarts(margin, h);
    } else {
      BurstOutcome(margin, h, life, n - 1);
      BurstStep(margin, h, life, n - 1, Burst(margin, h, life, n - 1));
    }
  }

  lemma {:induction false} BurstStep(margin: int, h: Human, life: int, n: nat, before: seq<Call>)
    requires Validate(h).None? && life <= margin
    requires MintTimes(margin, before, h) == BurstTimes(margin, life, n)
    requires RunOf(margin, before) == map[h := BurstToken(margin, h, life, n)]
    ensures var now := BurstTime(margin, life, n);
            var calls := before + [Use(h, now, now, Minted(Some(now + life)))];
            && MintTimes(margin, calls, h) == BurstTimes(margin, life, n + 1)
            && RunOf(margin, calls) == map[h := BurstToken(margin, h, life, n + 1)]
  {
    var now := BurstTime(margin, life, n);
    NotReusable(margin, h, life, n);
    OneMoreMint(margin, before, h, now, now + life);
  }

  lemma NotReusable(margin: int, h: Human, life: int, n: nat)
    requires life <= margin
    ensures !Reusable(BurstToken(margin, h, life, n), margin, BurstTime(margin, life, n))
  {
  }

  /** Without a lifetime above the margin there is no bound: however many mints are asked for, there is a run with that
      many of one human, all in one instant or, at a lifetime equal to the margin, one in each unit of time. */
  lemma {:induction false} RateIsUnbounded(margin: int, h: Human, life: int, n: nat) returns (calls: seq<Call>)
    requires Validate(h).None? && life <= margin
    ensures LivesAtLeast(calls, life) && |MintTimes(margin, calls, h)| == n
    ensures forall i: nat :: i < n ==> MintTimes(margin, calls, h)[i] == if life < margin then 0 else i
  {
    calls := Burst(margin, h, life, n);
    BurstLives(margin, h, life, n);
    BurstOutcome(margin, h, life, n);
  }

  lemma BurstStarts(margin: int, h: Human)
    ensures RunOf(margin, [Ask(h)]) == map[h := None] && MintTimes(margin, [Ask(h)], h) == []
  {
    assert [Ask(h)][..0] == [] && RunOf(margin, []) == map[];
    assert MintTimes(margin, [], h) == [];
  }

  lemma OneMoreMint(margin: int, before: seq<Call>, h: Human, now: int, expiry: int)
    requires Validate(h).None? && h in RunOf(margin, before) && !Reusable(RunOf(margin, before)[h], margin, now)
    ensures var calls := before + [Use(h, now, now, Minted(Some(expiry)))];
            && MintTimes(margin, calls, h) == MintTimes(margin, before, h) + [now]
            && RunOf(margin, calls) == RunOf(margin, before)[h := Some(Token(h, Some(expiry)))]
  {
    var calls := before + [Use(h, now, now, Minted(Some(expiry)))];
    assert calls[..|calls| - 1] == before;
  }

  // ---------------------------------------------------------------- the objects

  /** The issuer's answers and how long they take, which may depend on every connection so far. */
  datatype World = World(reply: (seq<Human>, Human) -> MintReply, elapsed: (seq<Human>, Human) -> nat)

  /** What the caller of Token gets. */
  predicate Hands(result: Result<Token, MintError>, served: Served) {
    match served
    case Nothing => false
    case Failed(error) => result == Err(error)
    case Cached(token) => result == Ok(token)
    case Fresh(token) => result == Ok(token)
  }

  /** oauth2's reuse source over a mint source for one human. */
  class ReuseSource {
    const human: Human
    const margin: int
    var token: Option<Token>

    constructor (human: Human, margin: int)
      ensures this.human == human && this.margin == margin && token == None
    {
      this.human, this.margin, token := human, margin, None;
    }

    /** Token: the held token while at least the margin is left, otherwise a new one. */
    method Get(issuer: MockIssuer) returns (served: Result<Token, MintError>)
      modifies this`token, issuer`now, issuer`connections
      ensures issuer.now >= old(issuer.now)
      ensures var call := Use(human, old(issuer.now), issuer.now, issuer.world.reply(old(issuer.connections), human));
              var cache := map[human := old(token)];
              && Step(cache, margin, call) == map[human := token]
              && Hands(served, Serve(cache, margin, call))
              && issuer.connections ==
                 old(issuer.connections) + if Connects(cache, margin, call) then [human] else []
    {
      if Reusable(token, margin, issuer.now) {
        return Ok(token.value);
      }
      served := issuer.Mint(human);
      if served.Ok? {
        token := Some(served.value);
      }
    }
  }

  class MockIssuer {
    const world: World
    const margin: int
    var sources: map<Human, ReuseSource>
    var now: int
    var connections: seq<Human>

    constructor (world: World, margin: int, now: int)
      ensures this.world == world && this.margin == margin && this.now == now && connections == []
      ensures Valid() && View() == map[]
    {
      this.world, this.margin, this.now := world, margin, now;
      sources, connections := map[], [];
    }

    ghost predicate Valid()
      reads this, sources.Values
    {
      forall h :: h in sources ==> sources[h].human == h && sources[h].margin == margin
    }

    ghost function View(): Cache
      reads this, sources.Values
    {
      map h | h in sources :: sources[h].token
    }

    /** mint: an invalid human is turned away before anything is connected. */
    method Mint(h: Human) returns (minted: Result<Token, MintError>)
      modifies this`now, this`connections
      ensures now >= old(now)
      ensures minted == MintResult(h, world.reply(old(connections), h))
      ensures connections == old(connections) + if Validate(h).None? then [h] else []
    {
      var error := Validate(h);
      if error.Some? {
        return Err(InvalidHuman(error.value));
      }
      var reply := world.reply(connections, h);
      now := now + world.elapsed(connections, h);
      connections := connections + [h];
      match reply
      case NoConnection => minted := Err(MintFailed);
      case Refused => minted := Err(MintFailed);
      case Minted(expiry) => minted := Ok(Token(h, expiry));
    }

    /** TokenSource: equal humans get the same source. */
    method TokenSource(h: Human) returns (source: ReuseSource)
      requires Valid()
      modifies this`sources
      ensures Valid() && View() == Step(old(View()), margin, Ask(h))
      ensures h in sources && source == sources[h]
      ensures old(h in sources) ==> source == old(sources)[h] && sources == old(sources)
      ensures !old(h in sources) ==> fresh(source) && sources == old(sources)[h := source]
      ensures fresh(sources.Values - old(sources.Values))
    {
      if h in sources {
        return sources[h];
      }
      source := new ReuseSource(h, margin);
      sources := sources[h := source];
    }

    /** Token on the source a human already has. */
    method Draw(h: Human) returns (served: Result<Token, MintError>, ghost use: Call)
      requires Valid() && h in sources
      modifies this`now, this`connections, sources[h]
      ensures Valid() && now >= old(now)
      ensures use == Use(h, old(now), now, world.reply(old(connections), h))
      ensures View() == Step(old(View()), margin, use)
      ensures Hands(served, Serve(old(View()), margin, use))
      ensures connections == old(connections) + if Connects(old(View()), margin, use) then [h] else []
    {
      ghost var cache, begin := View(), now;
      var source := sources[h];
      assert forall k :: k in sources && k != h ==> sources[k] != source;
      served := source.Get(this);
      use := Use(h, begin, now, world.reply(old(connections), h));
      assert View() == cache[h := source.token];
      UsesAreLocal(cache, margin, use);
      assert Step(map[h := cache[h]], margin, use) == map[h := source.token];
    }

    /** TokenSource(h).Token(), the way an API client asks for a token on every request. */
    method TokenFor(h: Human) returns (served: Result<Token, MintError>, ghost use: Call)
      requires Valid()
      modifies this, sources.Values
      ensures Valid() && now >= old(now)
      ensures use == Use(h, old(now), now, world.reply(old(connections), h))
      ensures View() == Step(Step(old(View()), margin, Ask(h)), margin, use)
      ensures Hands(served, Serve(Step(old(View()), margin, Ask(h)), margin, use))
      ensures connections
              == old(connections) + if Connects(Step(old(View()), margin, Ask(h)), margin, use) then [h] else []
      ensures fresh(sources.Values - old(sources.Values))
      ensures h in sources && forall k :: k in old(sources) ==> k in sources && sources[k] == old(sources)[k]
    {
      var source := TokenSource(h);
      served, use := Draw(h);
    }
  }

  /** Requests made through one issuer are a run of the machine: each request is an Ask and a Use. */
  method ServeAll(issuer: MockIssuer, humans: seq<Human>)
    returns (served: seq<Result<Token, MintError>>, ghost calls: seq<Call>)
    requires issuer.Valid() && issuer.sources == map[]
    modifies issuer
    ensures issuer.Valid() && issuer.View() == RunOf(issuer.margin, calls)
    ensures Transcript(issuer.margin, calls, humans, served)
    ensures forall i :: 0 <= i < |humans| && served[i].Ok? ==> served[i].value.human == humans[i]
  {
    served, calls := [], [];
    assert issuer.View() == map[];
    for i := 0 to |humans|
      invariant issuer.Valid() && issuer.View() == RunOf(issuer.margin, calls) && fresh(issuer.sources.Values)
      invariant Transcript(issuer.margin, calls, humans[..i], served)
    {
      var result;
      ghost var use;
      result, use := issuer.TokenFor(humans[i]);
      TranscriptGrows(issuer.margin, calls, humans[..i], served, humans[i], use, result);
      assert humans[..i + 1] == humans[..i] + [humans[i]];
      calls, served := calls + [Ask(humans[i]), use], served + [result];
    }
    assert humans[..|humans|] == humans;
    forall i | 0 <= i < |humans| && served[i].Ok? ensures served[i].value.human == humans[i] {
      assert Requested(issuer.margin, calls, i, humans[i]);
      ServedTokenIsGood(issuer.margin, calls, 2 * i + 1);
    }
  }

  /** Each request is an Ask and a Use of its human, and got what the machine serves the Use. */
  ghost predicate Transcript(margin: int, calls: seq<Call>, humans: seq<Human>, served: seq<Result<Token, MintError>>) {
    && |served| == |humans| && |calls| == 2 * |humans|
    && forall i :: 0 <= i < |humans| ==>
         Requested(margin, calls, i, humans[i]) && Hands(served[i], ServedAt(margin, calls, 2 * i + 1))
  }

  lemma TranscriptGrows(margin: int, calls: seq<Call>, humans: seq<Human>, served: seq<Result<Token, MintError>>,
                        h: Human, use: Call, result: Result<Token, MintError>)
    requires Transcript(margin, calls, humans, served) && use.Use? && use.human == h
    requires Hands(result, Serve(Step(RunOf(margin, calls), margin, Ask(h)), margin, use))
    ensures Transcript(margin, calls + [Ask(h), use], humans + [h], served + [result])
    ensures RunOf(margin, calls + [Ask(h), use]) == Step(Step(RunOf(margin, calls), margin, Ask(h)), margin, use)
  {
    TwoMoreCalls(margin, calls, Ask(h), use);
    var more := calls + [Ask(h), use];
    forall i | 0 <= i < |humans|
      ensures Requested(margin, more, i, humans[i]) && Hands(served[i], ServedAt(margin, more, 2 * i + 1))
    {
      assert Requested(margin, calls, i, humans[i]);
    }
  }

  ghost predicate Requested(margin: int, calls: seq<Call>, i: nat, h: Human) {
    2 * i + 1 < |calls| && calls[2 * i] == Ask(h) && calls[2 * i + 1].Use? && calls[2 * i + 1].human == h
  }

  lemma TwoMoreCalls(margin: int, calls: seq<Call>, ask: Call, use: Call)
    ensures var more := calls + [ask, use];
            && RunOf(margin, more) == Step(Step(RunOf(margin, calls), margin, ask), margin, use)
            && ServedAt(margin, more, |calls| + 1) == Serve(Step(RunOf(margin, calls), margin, ask), margin, use)
            && forall j :: 0 <= j < |calls| ==> ServedAt(margin, more, j) == ServedAt(margin, calls, j)
  {
    var more := calls + [ask, use];
    assert more[..|calls| + 1] == calls + [ask];
    assert (calls + [ask])[..|calls|] == calls;
    forall j | 0 <= j < |calls| ensures more[..j] == calls[..j] {
    }
  }

  /** What a spec does with the issuer: get a human's source to hand to a client, or ask that source for a token. */
  datatype Request = GetSource(human: Human) | GetToken(human: Human)

  /** Over every run of both, requests for equal humans are met by the same source and those for different humans by
      different ones. */
  method RunRequests(issuer: MockIssuer, requests: seq<Request>) returns (got: seq<ReuseSource>)
    requires issuer.Valid() && issuer.sources == map[]
    modifies issuer
    ensures issuer.Valid() && |got| == |requests|
    ensures forall i, j :: 0 <= i < |requests| && 0 <= j < |requests| ==>
              (requests[i].human == requests[j].human <==> got[i] == got[j])
  {
    got := [];
    for i := 0 to |requests|
      invariant issuer.Valid() && fresh(issuer.sources.Values) && |got| == i
      invariant forall j :: 0 <= j < i ==>
              requests[j].human in issuer.sources && got[j] == issuer.sources[requests[j].human]
    {
      var source;
      match requests[i] {
        case GetSource(h) =>
          source := issuer.TokenSource(h);
        case GetToken(h) =>
          var served, use := issuer.TokenFor(h);
          source := issuer.sources[h];
      }
      got := got + [source];
    }
  }
}
