/**
 * The draw handler (functions/api/lottery/draw.js): filter the candidates,
 * resolve the target prize, size the draw, sample without replacement, record
 * the winners and take the stock.
 *
 * `Math.floor(Math.random() * len)` becomes a caller-supplied position below
 * len: `random(0, len)` for the random prize, `random(1 + i, len)` for the
 * i-th pick. The record ids built from
 * `Date.now()` and `Math.random()` are supplied as `recordIds(i)`, and
 * `new Date().toISOString()` as `time`.
 */
module Draw {
  import opened Types
  import IdSets
  import Kv
  import Auth
  import opened Store
  import Invariants

  /** `parseInt(count)` of the request's `count`, which defaults to 1 when omitted. */
  datatype Count = Number(n: int) | NotANumber

  /** The request body: `prizeId` ("" when omitted) and the parsed count. */
  datatype DrawRequest = DrawRequest(prizeId: string, count: Count)

  /** What a successful draw produces: the new records and the three values it stores. */
  datatype Drawn = Drawn(records: seq<WinRecord>, prizes: seq<Prize>,
                         winners: seq<WinRecord>, excluded: seq<string>)

  /** The random source: random(i, len) is the position that the draw's i-th
      `Math.floor(Math.random() * len)` yields, always below len. */
  ghost predicate ValidRandom(random: (nat, nat) -> nat) {
    forall i: nat, len: nat :: 0 < len ==> random(i, len) < len
  }

  /** The people of the roster whose id is not excluded, in roster order. */
  function Candidates(roster: seq<Person>, excluded: seq<string>): (r: seq<Person>)
    ensures forall p :: p in r <==> p in roster && p.id !in excluded
    ensures |r| <= |roster|
    ensures excluded == [] ==> r == roster
  {
    if roster == [] then []
    else
      var front := Candidates(roster[..|roster| - 1], excluded);
      var last := roster[|roster| - 1];
      assert roster == roster[..|roster| - 1] + [last];
      if last.id !in excluded then front + [last] else front
  }

  /** The filter keeps roster order: it filters the parts of a split roster in turn. */
  lemma {:induction false} CandidatesAppend(a: seq<Person>, b: seq<Person>, excluded: seq<string>)
    ensures Candidates(a + b, excluded) == Candidates(a, excluded) + Candidates(b, excluded)
    decreases |b|
  {
    if b == [] {
      assert a + b == a;
    } else {
      var front := b[..|b| - 1];
      assert (a + b)[..|a + b| - 1] == a + front;
      assert (a + b)[|a + b| - 1] == b[|b| - 1];
      CandidatesAppend(a, front, excluded);
    }
  }

  /** Candidates of a roster whose ids are pairwise distinct have distinct ids. */
  lemma {:induction false} CandidatesDistinct(roster: seq<Person>, excluded: seq<string>)
    requires Distinct(PersonIds(roster))
    ensures Distinct(PersonIds(Candidates(roster, excluded)))
  {
    if roster != [] {
      var front := roster[..|roster| - 1];
      var last := roster[|roster| - 1];
      assert Distinct(PersonIds(front)) by {
        forall i, j | 0 <= i < j < |front| ensures front[i].id != front[j].id {
          assert PersonIds(roster)[i] == front[i].id && PersonIds(roster)[j] == front[j].id;
        }
      }
      CandidatesDistinct(front, excluded);
      var c := Candidates(front, excluded);
      if last.id !in excluded {
        forall p | p in c ensures p.id != last.id {
          var k :| 0 <= k < |front| && front[k] == p;
          assert PersonIds(roster)[k] == p.id && PersonIds(roster)[|roster| - 1] == last.id;
        }
        forall i, j | 0 <= i < j < |c + [last]| ensures PersonIds(c + [last])[i] != PersonIds(c + [last])[j] {
          if j == |c| {
            assert c[i] in c;
          } else {
            assert PersonIds(c)[i] == (c + [last])[i].id && PersonIds(c)[j] == (c + [last])[j].id;
          }
        }
      }
    }
  }

  /** `prizes.findIndex(p => p.id === id)`. */
  function FindPrize(prizes: seq<Prize>, id: string): (r: int)
    ensures -1 <= r < |prizes|
    ensures r == -1 <==> forall p :: p in prizes ==> p.id != id
    ensures 0 <= r ==> prizes[r].id == id && forall j :: 0 <= j < r ==> prizes[j].id != id
  {
    if prizes == [] then -1
    else if prizes[0].id == id then 0
    else
      var r := FindPrize(prizes[1..], id);
      assert forall p :: p in prizes ==> p == prizes[0] || p in prizes[1..];
      assert forall j :: 0 < j < |prizes| ==> prizes[j] == prizes[1..][j - 1];
      if r == -1 then -1 else r + 1
  }

  /** The positions of the prizes still in stock, in list order
      (`prizes.filter(p => p.remaining > 0)`, as positions so that `indexOf` is exact). */
  function InStock(prizes: seq<Prize>): (r: seq<nat>)
    ensures forall i: nat :: i in r <==> i < |prizes| && prizes[i].remaining > 0
    ensures forall a, b :: 0 <= a < b < |r| ==> r[a] < r[b]
  {
    if prizes == [] then []
    else
      var front := InStock(prizes[..|prizes| - 1]);
      assert forall a :: 0 <= a < |front| ==> front[a] < |prizes| - 1 by {
        forall a | 0 <= a < |front| ensures front[a] < |prizes| - 1 {
          assert front[a] in front;
        }
      }
      if prizes[|prizes| - 1].remaining > 0 then front + [|prizes| - 1] else front
  }

  /** Step 3: the target prize's position, or why there is none. */
  function ResolvePrize(prizes: seq<Prize>, prizeId: string, random: (nat, nat) -> nat): (r: Result<nat>)
    requires ValidRandom(random)
    ensures r.Ok? ==> r.value < |prizes| && prizes[r.value].remaining > 0
    ensures prizeId != "" ==>
      && (r == Err(PrizeNotFound) <==> forall p :: p in prizes ==> p.id != prizeId)
      && (r == Err(OutOfStock) <==> 0 <= FindPrize(prizes, prizeId) && prizes[FindPrize(prizes, prizeId)].remaining <= 0)
      && (r.Ok? ==> r.value == FindPrize(prizes, prizeId))
      && (0 <= FindPrize(prizes, prizeId) && prizes[FindPrize(prizes, prizeId)].remaining > 0 ==>
          r == Ok(FindPrize(prizes, prizeId)))
    ensures prizeId == "" ==>
      && (r.Err? <==> forall p :: p in prizes ==> p.remaining <= 0)
      && (r.Err? ==> r.error == AllOutOfStock)
  {
    if prizeId != "" then
      var i := FindPrize(prizes, prizeId);
      if i == -1 then Err(PrizeNotFound)
      else if prizes[i].remaining <= 0 then Err(OutOfStock)
      else Ok(i)
    else
      var available := InStock(prizes);
      if available == [] then
        assert forall p :: p in prizes ==> p.remaining <= 0 by {
          forall i | 0 <= i < |prizes| ensures prizes[i].remaining <= 0 {
            assert i !in available;
          }
        }
        Err(AllOutOfStock)
      else
        assert available[0] in available;
        Ok(available[random(0, |available|)])
  }

  /** Step 4: `Math.min(parseInt(count), remaining, candidates)`; NaN (None)
      when the count does not parse, since `Math.min` propagates NaN. */
  function DrawCount(count: Count, remaining: int, candidates: nat): (n: Option<int>)
    ensures count.NotANumber? <==> n.None?
    ensures n.Some? ==> n.value <= remaining && n.value <= candidates && n.value <= count.n
    ensures n.Some? ==> n.value == remaining || n.value == candidates || n.value == count.n
  {
    match count
    case NotANumber => None
    case Number(c) => Some(Min(Min(c, remaining), candidates))
  }

  function Min(a: int, b: int): int {
    if a <= b then a else b
  }

  /** `candidatesCopy.splice(k, 1)`. */
  function RemoveAt<T>(s: seq<T>, k: nat): (r: seq<T>)
    requires k < |s|
    ensures |r| == |s| - 1
    ensures forall i :: 0 <= i < k ==> r[i] == s[i]
    ensures forall i :: k <= i < |r| ==> r[i] == s[i + 1]
  {
    s[..k] + s[k + 1..]
  }

  /** Splicing out position k removes one occurrence of s[k] and nothing else. */
  lemma RemoveAtBag<T>(s: seq<T>, k: nat)
    requires k < |s|
    ensures multiset(s) == multiset(RemoveAt(s, k)) + multiset{s[k]}
  {
    assert s == s[..k] + [s[k]] + s[k + 1..];
  }

  lemma ConsBag<T>(x: T, rest: seq<T>, pool': seq<T>, pool: seq<T>)
    requires multiset(rest) <= multiset(pool') && multiset(pool) == multiset(pool') + multiset{x}
    ensures multiset([x] + rest) <= multiset(pool)
  {
    assert multiset([x] + rest) == multiset{x} + multiset(rest);
  }

  /** The n people picked from pool, the i-th pick using random(from + i, ·) and
      removing the picked person from the pool. */
  function Picks(pool: seq<Person>, n: nat, random: (nat, nat) -> nat, from: nat): (r: seq<Person>)
    requires ValidRandom(random) && n <= |pool|
    ensures |r| == n
    decreases n
  {
    if n == 0 then []
    else
      var k := random(from, |pool|);
      [pool[k]] + Picks(RemoveAt(pool, k), n - 1, random, from + 1)
  }

  /** Picking is without replacement: nobody is picked more often than they
      occur in the pool. */
  lemma {:induction false} PicksFromPool(pool: seq<Person>, n: nat, random: (nat, nat) -> nat, from: nat)
    requires ValidRandom(random) && n <= |pool|
    ensures multiset(Picks(pool, n, random, from)) <= multiset(pool)
    decreases n
  {
    if n > 0 {
      var k := random(from, |pool|);
      var pool' := RemoveAt(pool, k);
      PicksFromPool(pool', n - 1, random, from + 1);
      RemoveAtBag(pool, k);
      ConsBag(pool[k], Picks(pool', n - 1, random, from + 1), pool', pool);
    }
  }

  /** Every pick is a member of the pool. */
  lemma PicksMembers(pool: seq<Person>, n: nat, random: (nat, nat) -> nat, from: nat, p: Person)
    requires ValidRandom(random) && n <= |pool|
    requires p in Picks(pool, n, random, from)
    ensures p in pool
  {
    PicksFromPool(pool, n, random, from);
    assert p in multiset(Picks(pool, n, random, from));
  }

  /** Splicing out one person keeps the ids distinct, and leaves no one with
      the removed person's id. */
  lemma RemoveAtDistinct(pool: seq<Person>, k: nat)
    requires k < |pool| && Distinct(PersonIds(pool))
    ensures Distinct(PersonIds(RemoveAt(pool, k)))
    ensures forall p :: p in RemoveAt(pool, k) ==> p.id != pool[k].id
  {
    var r := RemoveAt(pool, k);
    forall i, j | 0 <= i < j < |r| ensures PersonIds(r)[i] != PersonIds(r)[j] {
      var i' := if i < k then i else i + 1;
      var j' := if j < k then j else j + 1;
      assert PersonIds(pool)[i'] != PersonIds(pool)[j'];
    }
    forall p | p in r ensures p.id != pool[k].id {
      var m :| 0 <= m < |r| && r[m] == p;
      var m' := if m < k then m else m + 1;
      assert PersonIds(pool)[m'] != PersonIds(pool)[k];
    }
  }

  /** Picks from a pool with pairwise distinct ids have pairwise distinct ids. */
  lemma {:induction false} PicksDistinct(pool: seq<Person>, n: nat, random: (nat, nat) -> nat, from: nat)
    requires ValidRandom(random) && n <= |pool|
    requires Distinct(PersonIds(pool))
    ensures Distinct(PersonIds(Picks(pool, n, random, from)))
    decreases n
  {
    if n > 0 {
      var k := random(from, |pool|);
      var pool' := RemoveAt(pool, k);
      var rest := Picks(pool', n - 1, random, from + 1);
      RemoveAtDistinct(pool, k);
      PicksDistinct(pool', n - 1, random, from + 1);
      var r := [pool[k]] + rest;
      forall i, j | 0 <= i < j < |r| ensures PersonIds(r)[i] != PersonIds(r)[j] {
        if i == 0 {
          PicksMembers(pool', n - 1, random, from + 1, rest[j - 1]);
        } else {
          assert PersonIds(rest)[i - 1] != PersonIds(rest)[j - 1];
        }
      }
    }
  }

  /** Step 5, the sampling loop: picks drawCount people, splicing each out of a copy. */
  method SampleWinners(candidates: seq<Person>, drawCount: nat, random: (nat, nat) -> nat)
    returns (currentWinners: seq<Person>)
    requires ValidRandom(random) && drawCount <= |candidates|
    ensures currentWinners == Picks(candidates, drawCount, random, 1)
    ensures |currentWinners| == drawCount
  {
    currentWinners := [];
    var candidatesCopy := candidates;
    var i := 0;
    while i < drawCount
      invariant 0 <= i <= drawCount
      invariant |candidatesCopy| == |candidates| - i
      invariant currentWinners + Picks(candidatesCopy, drawCount - i, random, 1 + i)
             == Picks(candidates, drawCount, random, 1)
    {
      var randomIndex := random(1 + i, |candidatesCopy|);
      var winner := candidatesCopy[randomIndex];
      PickStep(currentWinners, candidatesCopy, drawCount - i, random, 1 + i);
      candidatesCopy := RemoveAt(candidatesCopy, randomIndex);
      currentWinners := currentWinners + [winner];
      i := i + 1;
    }
  }

  /** One splice moves the next pick from the pool to the end of the winners. */
  lemma PickStep(done: seq<Person>, pool: seq<Person>, n: nat, random: (nat, nat) -> nat, from: nat)
    requires ValidRandom(random) && 0 < n <= |pool|
    ensures var k := random(from, |pool|);
            done + Picks(pool, n, random, from) == (done + [pool[k]]) + Picks(RemoveAt(pool, k), n - 1, random, from + 1)
  {
  }

  /** One record: the target prize's and the winner's fields, snapshotted. */
  function MakeRecord(prize: Prize, w: Person, id: string, time: string): WinRecord {
    WinRecord(id, prize.id, prize.name, prize.level, prize.levelLabel, w.id, w.name, w.seat, time)
  }

  function MakeRecords(prize: Prize, ws: seq<Person>, recordIds: nat -> string, time: string): seq<WinRecord> {
    seq(|ws|, i requires 0 <= i < |ws| => MakeRecord(prize, ws[i], recordIds(i), time))
  }

  /** Step 6, the `forEach` over the winners: exclude each winner, and append a
      record for each both to the new records and to the stored winners. */
  method RecordWinners(prize: Prize, currentWinners: seq<Person>, recordIds: nat -> string,
                       time: string, excluded0: seq<string>, winners0: seq<WinRecord>)
    returns (newRecords: seq<WinRecord>, excluded: seq<string>, winners: seq<WinRecord>)
    ensures newRecords == MakeRecords(prize, currentWinners, recordIds, time)
    ensures winners == winners0 + newRecords
    ensures excluded == IdSets.AddAll(excluded0, PersonIds(currentWinners))
  {
    newRecords, excluded, winners := [], excluded0, winners0;
    for i := 0 to |currentWinners|
      invariant newRecords == MakeRecords(prize, currentWinners[..i], recordIds, time)
      invariant winners == winners0 + newRecords
      invariant excluded == IdSets.AddAll(excluded0, PersonIds(currentWinners[..i]))
    {
      var w := currentWinners[i];
      RecordStep(prize, currentWinners, recordIds, time, i);
      excluded := IdSets.Add(excluded, w.id);
      var record := MakeRecord(prize, w, recordIds(i), time);
      newRecords := newRecords + [record];
      winners := winners + [record];
    }
    assert currentWinners[..|currentWinners|] == currentWinners;
  }

  /** One more winner adds one record and one id at the end. */
  lemma RecordStep(prize: Prize, ws: seq<Person>, recordIds: nat -> string, time: string, i: nat)
    requires i < |ws|
    ensures MakeRecords(prize, ws[..i + 1], recordIds, time) ==
            MakeRecords(prize, ws[..i], recordIds, time) + [MakeRecord(prize, ws[i], recordIds(i), time)]
    ensures PersonIds(ws[..i + 1]) == PersonIds(ws[..i]) + [ws[i].id]
  {
    var a := MakeRecords(prize, ws[..i + 1], recordIds, time);
    var b := MakeRecords(prize, ws[..i], recordIds, time) + [MakeRecord(prize, ws[i], recordIds(i), time)];
    assert |a| == |b|;
    forall k | 0 <= k < |a| ensures a[k] == b[k] {
      assert ws[..i + 1][k] == ws[k];
    }
    var c := PersonIds(ws[..i + 1]);
    var d := PersonIds(ws[..i]) + [ws[i].id];
    assert |c| == |d|;
    forall k | 0 <= k < |c| ensures c[k] == d[k] {
      assert ws[..i + 1][k] == ws[k];
    }
  }

  /** The number of people a draw of count `n` picks: a NaN count fails the
      `drawCount <= 0` guard and then runs the sampling loop zero times. */
  function Size(n: Option<int>): nat {
    if n.Some? && n.value > 0 then n.value else 0
  }

  /** The whole draw on one tenant's data: the failure, or the records and the
      values to store. */
  function DrawOn(s: Snapshot, req: DrawRequest, random: (nat, nat) -> nat,
                  recordIds: nat -> string, time: string): (r: Result<Drawn>)
    requires ValidRandom(random)
    // Steps 1 and 2 fail first, in this order.
    ensures s.roster == [] ==> r == Err(EmptyRoster)
    ensures s.roster != [] && Candidates(s.roster, s.excluded) == [] ==> r == Err(NoCandidates)
    // A prize failure is exactly the prize resolution's.
    ensures s.roster != [] && Candidates(s.roster, s.excluded) != [] &&
            ResolvePrize(s.prizes, req.prizeId, random).Err? ==>
            r == Err(ResolvePrize(s.prizes, req.prizeId, random).error)
    ensures r.Err? ==> r.error in {EmptyRoster, NoCandidates, PrizeNotFound, OutOfStock,
                                  AllOutOfStock, InsufficientCapacity}
    // Once the roster, the candidates and the prize pass, only step 4's guard fails.
    ensures var cands := Candidates(s.roster, s.excluded);
            var pr := ResolvePrize(s.prizes, req.prizeId, random);
            s.roster != [] && cands != [] && pr.Ok? ==>
              var n := DrawCount(req.count, s.prizes[pr.value].remaining, |cands|);
              && (r.Err? <==> n.Some? && n.value <= 0)
              && (r.Err? ==> r.error == InsufficientCapacity)
  {
    if s.roster == [] then Err(EmptyRoster)
    else
      var cands := Candidates(s.roster, s.excluded);
      if cands == [] then Err(NoCandidates)
      else
        match ResolvePrize(s.prizes, req.prizeId, random)
        case Err(e) => Err(e)
        case Ok(ti) =>
          var target := s.prizes[ti];
          var n := DrawCount(req.count, target.remaining, |cands|);
          if n.Some? && n.value <= 0 then Err(InsufficientCapacity)
          else
            var ws := Picks(cands, Size(n), random, 1);
            var records := MakeRecords(target, ws, recordIds, time);
            Ok(Drawn(records, s.prizes[ti := target.(remaining := target.remaining - Size(n))],
                     s.winners + records, IdSets.AddAll(s.excluded, PersonIds(ws))))
  }

  /** With no prizes listed, every draw fails: by the roster, the candidates,
      or the prize step. */
  lemma NoPrizesNoDraw(s: Snapshot, req: DrawRequest, random: (nat, nat) -> nat,
                       recordIds: nat -> string, time: string)
    requires ValidRandom(random) && s.prizes == []
    ensures DrawOn(s, req, random, recordIds, time).Err?
  {
    assert ResolvePrize(s.prizes, req.prizeId, random).Err?;
  }

  /** The people a list of records names. */
  function Winners(records: seq<WinRecord>): seq<Person> {
    seq(|records|, i requires 0 <= i < |records| =>
      Person(records[i].winnerId, records[i].winnerName, records[i].winnerSeat))
  }

  /** The records of ws name exactly ws, and each snapshots the prize and the time. */
  lemma MakeRecordsFacts(prize: Prize, ws: seq<Person>, recordIds: nat -> string, time: string)
    ensures Winners(MakeRecords(prize, ws, recordIds, time)) == ws
    ensures WinnerIds(MakeRecords(prize, ws, recordIds, time)) == PersonIds(ws)
    ensures forall w :: w in MakeRecords(prize, ws, recordIds, time) ==>
      w.prizeId == prize.id && w.prizeName == prize.name && w.prizeLevel == prize.level &&
      w.prizeLevelLabel == prize.levelLabel && w.winTime == time
  {
    var records := MakeRecords(prize, ws, recordIds, time);
    forall i | 0 <= i < |ws| ensures Winners(records)[i] == ws[i] && WinnerIds(records)[i] == PersonIds(ws)[i] {
      assert records[i] == MakeRecord(prize, ws[i], recordIds(i), time);
    }
    forall w | w in records
      ensures w.prizeId == prize.id && w.prizeName == prize.name && w.prizeLevel == prize.level &&
              w.prizeLevelLabel == prize.levelLabel && w.winTime == time
    {
      var i :| 0 <= i < |records| && records[i] == w;
      assert w == MakeRecord(prize, ws[i], recordIds(i), time);
    }
  }

  /** What a successful draw does: it picks the draw count's number of people
      without replacement from the candidates, snapshots the target prize in
      each record, appends the records, excludes exactly the winners in
      addition, and moves only the target's stock, by the number of winners. */
  lemma {:induction false} DrawOnSuccess(s: Snapshot, req: DrawRequest, random: (nat, nat) -> nat,
                                         recordIds: nat -> string, time: string)
    requires ValidRandom(random)
    requires DrawOn(s, req, random, recordIds, time).Ok?
    ensures
      var r := DrawOn(s, req, random, recordIds, time).value;
      var cands := Candidates(s.roster, s.excluded);
      var ti := ResolvePrize(s.prizes, req.prizeId, random).value;
      var target := s.prizes[ti];
      var n := |r.records|;
      && ResolvePrize(s.prizes, req.prizeId, random).Ok?
      // the draw size: the count, bounded by the stock and the candidates
      && (req.count.Number? ==> 1 <= n && Some(n) == DrawCount(req.count, target.remaining, |cands|))
      && (req.count.NotANumber? ==> n == 0)
      // every record snapshots the target prize, one timestamp for all
      && (forall w :: w in r.records ==>
            w.prizeId == target.id && w.prizeName == target.name && w.prizeLevel == target.level &&
            w.prizeLevelLabel == target.levelLabel && w.winTime == time)
      // the winners are drawn without replacement from the candidates
      && multiset(Winners(r.records)) <= multiset(cands)
      // records are appended, in selection order
      && r.winners == s.winners + r.records
      // every winner is now excluded, and nobody else is
      && (forall x :: x in r.excluded <==> x in s.excluded || x in WinnerIds(r.records))
      && (Distinct(s.excluded) ==> Distinct(r.excluded))
      // only the target's stock moves, by exactly n
      && |r.prizes| == |s.prizes|
      && r.prizes[ti] == target.(remaining := target.remaining - n)
      && (forall j :: 0 <= j < |s.prizes| && j != ti ==> r.prizes[j] == s.prizes[j])
  {
    var cands := Candidates(s.roster, s.excluded);
    var ti := ResolvePrize(s.prizes, req.prizeId, random).value;
    var target := s.prizes[ti];
    var n := DrawCount(req.count, target.remaining, |cands|);
    var ws := Picks(cands, Size(n), random, 1);
    PicksFromPool(cands, Size(n), random, 1);
    MakeRecordsFacts(target, ws, recordIds, time);
  }

  /** A draw's winners are fresh: with unique roster ids, none of them had won
      before and no two of them share an id. */
  lemma DrawWinnersFresh(s: Snapshot, req: DrawRequest, random: (nat, nat) -> nat,
                         recordIds: nat -> string, time: string)
    requires ValidRandom(random)
    requires Distinct(PersonIds(s.roster))
    requires forall x :: x in s.excluded <==> x in WinnerIds(s.winners)
    requires Distinct(WinnerIds(s.winners))
    requires DrawOn(s, req, random, recordIds, time).Ok?
    ensures Distinct(WinnerIds(DrawOn(s, req, random, recordIds, time).value.winners))
  {
    var r := DrawOn(s, req, random, recordIds, time).value;
    var cands := Candidates(s.roster, s.excluded);
    var ti := ResolvePrize(s.prizes, req.prizeId, random).value;
    var target := s.prizes[ti];
    var ws := Picks(cands, Size(DrawCount(req.count, target.remaining, |cands|)), random, 1);
    assert r.records == MakeRecords(target, ws, recordIds, time);
    MakeRecordsFacts(target, ws, recordIds, time);
    CandidatesDistinct(s.roster, s.excluded);
    PicksDistinct(cands, |ws|, random, 1);
    forall x | x in WinnerIds(s.winners) ensures x !in WinnerIds(r.records) {
      if x in PersonIds(ws) {
        var k :| 0 <= k < |ws| && ws[k].id == x;
        PicksMembers(cands, |ws|, random, 1, ws[k]);
      }
    }
    WinnerIdsAppend(s.winners, r.records);
    DistinctConcat(WinnerIds(s.winners), WinnerIds(r.records));
  }

  /** A draw keeps the prize ids, and every record names a listed prize. */
  lemma DrawKeepsListing(s: Snapshot, req: DrawRequest, random: (nat, nat) -> nat,
                         recordIds: nat -> string, time: string)
    requires ValidRandom(random)
    requires forall i :: 0 <= i < |s.winners| ==> s.winners[i].prizeId in PrizeIds(s.prizes)
    requires DrawOn(s, req, random, recordIds, time).Ok?
    ensures
      var r := DrawOn(s, req, random, recordIds, time).value;
      && PrizeIds(r.prizes) == PrizeIds(s.prizes)
      && (forall i :: 0 <= i < |r.winners| ==> r.winners[i].prizeId in PrizeIds(r.prizes))
  {
    var r := DrawOn(s, req, random, recordIds, time).value;
    var ti := ResolvePrize(s.prizes, req.prizeId, random).value;
    var target := s.prizes[ti];
    DrawOnSuccess(s, req, random, recordIds, time);
    assert PrizeIds(r.prizes) == PrizeIds(s.prizes) by {
      forall j | 0 <= j < |s.prizes| ensures r.prizes[j].id == s.prizes[j].id {
      }
    }
    assert target.id in PrizeIds(r.prizes) by {
      assert PrizeIds(s.prizes)[ti] == target.id;
    }
    forall i | |s.winners| <= i < |r.winners| ensures r.winners[i].prizeId in PrizeIds(r.prizes) {
      assert r.winners[i] in r.records;
    }
  }

  /** A draw keeps every prize's `count - remaining` equal to its number of
      records: the target loses as many units as records were added for it. */
  lemma DrawKeepsCounts(s: Snapshot, req: DrawRequest, random: (nat, nat) -> nat,
                        recordIds: nat -> string, time: string)
    requires ValidRandom(random)
    requires Distinct(PrizeIds(s.prizes))
    requires Invariants.StockMatches(s.prizes, s.winners)
    requires DrawOn(s, req, random, recordIds, time).Ok?
    ensures
      var r := DrawOn(s, req, random, recordIds, time).value;
      Invariants.StockMatches(r.prizes, r.winners)
  {
    var r := DrawOn(s, req, random, recordIds, time).value;
    var ti := ResolvePrize(s.prizes, req.prizeId, random).value;
    var target := s.prizes[ti];
    DrawOnSuccess(s, req, random, recordIds, time);
    forall j | 0 <= j < |r.prizes|
      ensures r.prizes[j].count - r.prizes[j].remaining == CountFor(r.winners, r.prizes[j].id)
    {
      CountForAppend(s.winners, r.records, r.prizes[j].id);
      CountForUniform(r.records, target.id, r.prizes[j].id);
      if j != ti {
        DistinctAt(PrizeIds(s.prizes), j, ti);
      }
    }
  }

  /** A draw keeps the books consistent, provided roster ids are unique:
      the winners are fresh, distinct ids that become excluded, and the target's
      stock falls by exactly the number of records added for it. */
  lemma DrawPreservesConsistency(s: Snapshot, req: DrawRequest, random: (nat, nat) -> nat,
                                 recordIds: nat -> string, time: string)
    requires ValidRandom(random)
    requires Distinct(PersonIds(s.roster))
    requires Invariants.Consistent(s.prizes, s.winners, s.excluded)
    requires DrawOn(s, req, random, recordIds, time).Ok?
    ensures
      var r := DrawOn(s, req, random, recordIds, time).value;
      Invariants.Consistent(r.prizes, r.winners, r.excluded)
  {
    var r := DrawOn(s, req, random, recordIds, time).value;
    var cands := Candidates(s.roster, s.excluded);
    var ti := ResolvePrize(s.prizes, req.prizeId, random).value;
    var target := s.prizes[ti];
    var ws := Picks(cands, Size(DrawCount(req.count, target.remaining, |cands|)), random, 1);
    assert r.records == MakeRecords(target, ws, recordIds, time);
    assert r.excluded == IdSets.AddAll(s.excluded, PersonIds(ws));
    MakeRecordsFacts(target, ws, recordIds, time);
    DrawWinnersFresh(s, req, random, recordIds, time);
    DrawKeepsListing(s, req, random, recordIds, time);
    DrawKeepsCounts(s, req, random, recordIds, time);
    WinnerIdsAppend(s.winners, r.records);
    IdSets.AddAllOfDistinct(s.excluded, PersonIds(ws));
  }

  /** Steps 1 to 6 on the loaded values: the answer, and on success the values to store. */
  method DrawSteps(s: Snapshot, req: DrawRequest, random: (nat, nat) -> nat,
                   recordIds: nat -> string, time: string)
    returns (out: Result<Drawn>)
    requires ValidRandom(random)
    ensures out == DrawOn(s, req, random, recordIds, time)
  {
    var prizes, winners, excludedIds, seatData := s.prizes, s.winners, s.excluded, s.roster;
    if |seatData| == 0 {
      return Err(EmptyRoster);
    }
    var availableCandidates := Candidates(seatData, excludedIds);
    if |availableCandidates| == 0 {
      return Err(NoCandidates);
    }
    var resolved := ResolvePrize(prizes, req.prizeId, random);
    if resolved.Err? {
      return Err(resolved.error);
    }
    var targetPrizeIndex := resolved.value;
    var targetPrize := prizes[targetPrizeIndex];
    var drawCount := DrawCount(req.count, targetPrize.remaining, |availableCandidates|);
    if drawCount.Some? && drawCount.value <= 0 {
      return Err(InsufficientCapacity);
    }

    var currentWinners := SampleWinners(availableCandidates, Size(drawCount), random);
    var newRecords;
    newRecords, excludedIds, winners :=
      RecordWinners(targetPrize, currentWinners, recordIds, time, excludedIds, winners);

    targetPrize := targetPrize.(remaining := targetPrize.remaining - |currentWinners|);
    prizes := prizes[targetPrizeIndex := targetPrize];
    out := Ok(Drawn(newRecords, prizes, winners, excludedIds));
  }

  /** `onRequestPost`: the tenant is the token's; a failure writes nothing. */
  method OnRequestPost(env: Auth.Env, token: string, kv: KvStore?, req: DrawRequest,
                       random: (nat, nat) -> nat, recordIds: nat -> string, time: string)
    returns (res: Result<seq<WinRecord>>)
    requires ValidRandom(random)
    modifies kv
    ensures Auth.FindTokenByPassword(env, token).None? ==>
      res == Err(Unauthorized) && (kv != null ==> kv.entries == old(kv.entries))
    ensures Auth.FindTokenByPassword(env, token).Some? && kv == null ==> res == Err(StorageUnavailable)
    ensures Auth.FindTokenByPassword(env, token).Some? && kv != null ==>
      var keys := Kv.TokenKeys(Auth.FindTokenByPassword(env, token).value.id);
      var out := DrawOn(Load(old(kv.entries), keys), req, random, recordIds, time);
      && (out.Err? ==> res == Err(out.error) && kv.entries == old(kv.entries))
      && (out.Ok? ==> (res == Ok(out.value.records) &&
            kv.entries == Save(old(kv.entries), keys, out.value.prizes, out.value.winners, out.value.excluded)))
  {
    var tokenConfig := Auth.FindTokenByPassword(env, token);
    if tokenConfig.None? {
      return Err(Unauthorized);
    }
    if kv == null {
      return Err(StorageUnavailable);
    }
    var keys := Kv.TokenKeys(tokenConfig.value.id);
    var prizes := PrizesAt(kv.entries, keys.prizes);
    var winners := RecordsAt(kv.entries, keys.winners);
    var excludedIds := IdSets.FromArray(IdsAt(kv.entries, keys.excludedIds));
    var seatData := PeopleAt(kv.entries, keys.seatData);
    var out := DrawSteps(Snapshot(seatData, prizes, winners, excludedIds), req, random, recordIds, time);
    if out.Err? {
      return Err(out.error);
    }
    kv.SaveAll(keys, out.value.prizes, out.value.winners, out.value.excluded);
    res := Ok(out.value.records);
  }
}
