/**
 * Entities of the prize-draw engine, as they are stored in the key/value store.
 * Every identifier is a string: exclusion compares `String(id)`, and the roster
 * upload only accepts string ids.
 */
module Types {

  datatype Option<+T> = None | Some(value: T)

  /** One roster entry. */
  datatype Person = Person(id: string, name: string, seat: string)

  /** One prize definition with its stock counter. */
  datatype Prize = Prize(id: string, name: string, count: int, remaining: int,
                         level: string, levelLabel: string)

  /** One win, snapshotting the prize's and the winner's fields at draw time. */
  datatype WinRecord = WinRecord(id: string,
                                 prizeId: string, prizeName: string,
                                 prizeLevel: string, prizeLevelLabel: string,
                                 winnerId: string, winnerName: string, winnerSeat: string,
                                 winTime: string)

  /** The failure answers of the handlers (the HTTP status is not modelled). */
  datatype Error =
    | Unauthorized          // 401
    | StorageUnavailable    // 500, the KV binding is missing
    | InvalidInput          // 400, malformed prize or roster
    | StorageFailure        // 500, an exception inside the handler
    | EmptyRoster           // 400, 'No personnel data'
    | NoCandidates          // 400, 'No one available to draw'
    | PrizeNotFound         // 404
    | OutOfStock            // 400, 'Prize out of stock'
    | AllOutOfStock         // 400, 'All prizes out of stock'
    | InsufficientCapacity  // 400, 'Not enough candidates or prizes'
    | RecordNotFound        // 404, 'Winner record not found'

  datatype Result<+T> = Ok(value: T) | Err(error: Error)

  /** The ids of a list of records, in order. */
  function WinnerIds(ws: seq<WinRecord>): seq<string> {
    seq(|ws|, i requires 0 <= i < |ws| => ws[i].winnerId)
  }

  /** The ids of a list of people, in order. */
  function PersonIds(ps: seq<Person>): seq<string> {
    seq(|ps|, i requires 0 <= i < |ps| => ps[i].id)
  }

  /** The ids of a list of prizes, in order. */
  function PrizeIds(ps: seq<Prize>): seq<string> {
    seq(|ps|, i requires 0 <= i < |ps| => ps[i].id)
  }

  /** No value occurs twice. */
  predicate Distinct<T(==)>(s: seq<T>) {
    forall i, j :: 0 <= i < j < |s| ==> s[i] != s[j]
  }

  /** The number of records for prize `pid`. */
  function CountFor(ws: seq<WinRecord>, pid: string): (n: nat)
    ensures n <= |ws|
  {
    if ws == [] then 0
    else CountFor(ws[..|ws| - 1], pid) + (if ws[|ws| - 1].prizeId == pid then 1 else 0)
  }

  lemma {:induction false} CountForAppend(a: seq<WinRecord>, b: seq<WinRecord>, pid: string)
    ensures CountFor(a + b, pid) == CountFor(a, pid) + CountFor(b, pid)
    decreases |b|
  {
    if b == [] {
      assert a + b == a;
    } else {
      var b' := b[..|b| - 1];
      assert (a + b)[..|a + b| - 1] == a + b';
      CountForAppend(a, b', pid);
    }
  }

  /** Removing the record at index i lowers its prize's count by one and no other. */
  lemma CountForRemove(ws: seq<WinRecord>, i: nat, pid: string)
    requires i < |ws|
    ensures CountFor(ws, pid) == CountFor(ws[..i] + ws[i + 1..], pid) + (if ws[i].prizeId == pid then 1 else 0)
  {
    assert ws == ws[..i] + [ws[i]] + ws[i + 1..];
    CountForAppend(ws[..i] + [ws[i]], ws[i + 1..], pid);
    CountForAppend(ws[..i], [ws[i]], pid);
    CountForAppend(ws[..i], ws[i + 1..], pid);
    assert CountFor([ws[i]], pid) == (if ws[i].prizeId == pid then 1 else 0) by {
      assert [ws[i]][..0] == [];
    }
  }

  /** A list where every record is for prize `pid` counts fully. */
  lemma {:induction false} CountForUniform(ws: seq<WinRecord>, pid: string, other: string)
    requires forall w :: w in ws ==> w.prizeId == pid
    ensures CountFor(ws, pid) == |ws|
    ensures other != pid ==> CountFor(ws, other) == 0
  {
    if ws != [] {
      CountForUniform(ws[..|ws| - 1], pid, other);
    }
  }

  lemma DistinctAt<T>(s: seq<T>, a: int, b: int)
    requires Distinct(s) && 0 <= a < |s| && 0 <= b < |s| && a != b
    ensures s[a] != s[b]
  {
  }

  lemma WinnerIdsAppend(a: seq<WinRecord>, b: seq<WinRecord>)
    ensures WinnerIds(a + b) == WinnerIds(a) + WinnerIds(b)
  {
  }

  /** Two duplicate-free sequences with no common element concatenate to a
      duplicate-free sequence. */
  lemma DistinctConcat<T>(a: seq<T>, b: seq<T>)
    requires Distinct(a) && Distinct(b)
    requires forall x :: x in a ==> x !in b
    ensures Distinct(a + b)
  {
    forall i, j | 0 <= i < j < |a + b| ensures (a + b)[i] != (a + b)[j] {
      if j >= |a| && i < |a| {
        assert a[i] in a && b[j - |a|] in b;
      }
    }
  }
}
