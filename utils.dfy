/** The bot's helpers: cutting the list of registered people into lunch
    groups, and asking whether someone is already registered. */
module Utils {
  import opened JsArray

  /** A registered person as the chat transport reports them. Only `id` takes
      part in any decision; the names are carried for display. */
  datatype Person<Id> = Person(id: Id, firstName: string, lastName: string)

  // ---------------------------------------------------------------------
  // chunkArray
  // ---------------------------------------------------------------------

  /** The groups as the bot intends them: the first `chunk` people (or all
      of them, if fewer remain) form a group, and the rest are grouped the
      same way. */
  function Chunks<T>(db: seq<T>, chunk: int): seq<seq<T>>
    requires db == [] || chunk >= 1
    decreases |db|
  {
    if db == [] then []
    else [db[..Min(chunk, |db|)]] + Chunks(db[Min(chunk, |db|)..], chunk)
  }

  /** One step of Chunks: the first group, then the groups of the rest. */
  lemma ChunksUnfold<T>(db: seq<T>, chunk: int)
    requires chunk >= 1 && db != []
    ensures var n := Min(chunk, |db|);
      |Chunks(db, chunk)| == 1 + |Chunks(db[n..], chunk)| &&
      Chunks(db, chunk)[0] == db[..n] &&
      Chunks(db, chunk)[1..] == Chunks(db[n..], chunk)
    ensures |db| <= chunk ==> Chunks(db, chunk) == [db]
  {
    assert |db| <= chunk ==> db[Min(chunk, |db|)..] == [] && db[..Min(chunk, |db|)] == db;
  }

  /** `chunkArray(db, chunk)`: a counting loop that pushes consecutive slices
      of `db` onto a fresh list, leaving `db` itself as it was. The loop only
      ends for `chunk >= 1`, unless `db` is empty and the body never runs. */
  method ChunkArray<T>(db: seq<T>, chunk: int) returns (newArray: seq<seq<T>>)
    requires db == [] || chunk >= 1
    ensures newArray == Chunks(db, chunk)
    ensures Flat(newArray) == db
  {
    newArray := [];
    var i := 0;
    while i < |db|
      invariant 0 <= i
      invariant newArray + Chunks(db[Min(i, |db|)..], chunk) == Chunks(db, chunk)
      decreases |db| - i
    {
      var rest := db[i..];
      assert Slice(db, i, i + chunk) == rest[..Min(chunk, |rest|)];
      assert rest[Min(chunk, |rest|)..] == db[Min(i + chunk, |db|)..];
      newArray := newArray + [Slice(db, i, i + chunk)];
      i := i + chunk;
    }
    assert db[Min(i, |db|)..] == [];
    if db != [] {
      FlatChunks(db, chunk);
    }
  }

  /** Joining the groups back together in order gives `db` again: nobody is
      dropped, duplicated or moved. */
  lemma {:induction false} FlatChunks<T>(db: seq<T>, chunk: int)
    requires chunk >= 1
    ensures Flat(Chunks(db, chunk)) == db
    decreases |db|
  {
    if db != [] {
      var n := Min(chunk, |db|);
      var r := Chunks(db, chunk);
      FlatChunks(db[n..], chunk);
      assert r[0] == db[..n] && r[1..] == Chunks(db[n..], chunk);
      assert db == db[..n] + db[n..];
    }
  }

  /** The number of groups of size `chunk` needed for `n` people, rounded up. */
  function NumChunks(n: nat, chunk: int): nat
    requires chunk >= 1
  {
    (n + chunk - 1) / chunk
  }

  /** There are ceil(|db| / chunk) groups: none at all for an empty list (not
      one empty group), and exactly one, the whole list, when `db` is not
      empty and no longer than `chunk`. */
  lemma {:induction false} ChunkCount<T>(db: seq<T>, chunk: int)
    requires chunk >= 1
    ensures |Chunks(db, chunk)| == NumChunks(|db|, chunk)
    ensures Chunks(db, chunk) == [] <==> db == []
    ensures 0 < |db| <= chunk ==> Chunks(db, chunk) == [db]
    decreases |db|
  {
    var n := |db|;
    if n == 0 {
      DivModUnique(chunk - 1, chunk, 0, chunk - 1);
    } else if n <= chunk {
      assert db[Min(chunk, n)..] == [] && db[..Min(chunk, n)] == db;
      DivModUnique(n + chunk - 1, chunk, 1, n - 1);
    } else {
      ChunkCount(db[chunk..], chunk);
      DivStep(n - 1, chunk);
    }
  }

  /** Quotient and remainder are the only pair that rebuilds `a`. */
  lemma DivModUnique(a: int, d: int, q: int, r: int)
    requires d >= 1 && a == q * d + r && 0 <= r < d
    ensures a / d == q && a % d == r
  {
    var q', r' := a / d, a % d;
    assert (q' - q) * d == r - r';
    if q' > q {
      MulMonotone(1, q' - q, d);
    } else if q' < q {
      MulMonotone(1, q - q', d);
    }
  }

  /** a <= b scales to a * c <= b * c for c >= 0. */
  lemma MulMonotone(a: int, b: int, c: int)
    requires a <= b && 0 <= c
    ensures a * c <= b * c
  {
  }

  /** Adding one more `d` to a non-negative number adds one to its quotient. */
  lemma DivStep(x: nat, d: int)
    requires d >= 1
    ensures (x + d) / d == x / d + 1
  {
    var q, m := x / d, x % d;
    assert x + d == (q + 1) * d + m;
    DivModUnique(x + d, d, q + 1, m);
  }

  /** Every group but the last holds exactly `chunk` people. */
  lemma {:induction false} InnerChunksFull<T>(db: seq<T>, chunk: int, k: nat)
    requires chunk >= 1
    requires k + 1 < |Chunks(db, chunk)|
    ensures |Chunks(db, chunk)[k]| == chunk
    decreases |db|
  {
    ChunksUnfold(db, chunk);
    var rest := db[Min(chunk, |db|)..];
    assert rest != [];
    if k > 0 {
      InnerChunksFull(rest, chunk, k - 1);
    }
  }

  /** The last group holds the remainder `|db| % chunk`, or a full `chunk`
      when `chunk` divides `|db|`; it is never empty. */
  lemma {:induction false} LastChunkSize<T>(db: seq<T>, chunk: int)
    requires chunk >= 1
    requires db != []
    ensures Chunks(db, chunk) != []
    ensures var last := Chunks(db, chunk)[|Chunks(db, chunk)| - 1];
      1 <= |last| <= chunk &&
      |last| == if |db| % chunk == 0 then chunk else |db| % chunk
    decreases |db|
  {
    var n := |db|;
    ChunksUnfold(db, chunk);
    if n <= chunk {
      if n == chunk {
        DivModUnique(n, chunk, 1, 0);
      } else {
        DivModUnique(n, chunk, 0, n);
      }
    } else {
      LastChunkSize(db[chunk..], chunk);
      ModStep(n - chunk, chunk);
    }
  }

  /** Taking `d` away from a number at least `d` leaves its remainder alone. */
  lemma ModStep(x: nat, d: int)
    requires d >= 1
    ensures (x + d) % d == x % d
  {
    var q, m := x / d, x % d;
    assert x + d == (q + 1) * d + m;
    DivModUnique(x + d, d, q + 1, m);
  }

  /** The k-th group is `db[k * chunk .. min((k + 1) * chunk, |db|)]`: it
      starts inside `db` at `k * chunk` and takes `chunk` people or whatever
      is left, so the groups keep the order of `db`. */
  lemma {:induction false} ChunkAt<T>(db: seq<T>, chunk: int, k: nat)
    requires chunk >= 1
    requires k < |Chunks(db, chunk)|
    ensures k * chunk < |db|
    ensures Chunks(db, chunk)[k] == db[k * chunk .. Min(k * chunk + chunk, |db|)]
    decreases k
  {
    ChunksUnfold(db, chunk);
    if k > 0 {
      var rest := db[Min(chunk, |db|)..];
      assert rest != [];
      assert rest == db[chunk..];
      ChunkAt(rest, chunk, k - 1);
      var s := (k - 1) * chunk;
      assert s + chunk == k * chunk;
      assert Min(s + chunk, |rest|) + chunk == Min(k * chunk + chunk, |db|);
    }
  }

  // ---------------------------------------------------------------------
  // isParticipant
  // ---------------------------------------------------------------------

  /** `isParticipant(db, from)`: someone in `db` has the same `id` as `from`. */
  function IsParticipant<Id(==)>(db: seq<Person<Id>>, from: Person<Id>): (r: bool)
    ensures r <==> exists j :: 0 <= j < |db| && db[j].id == from.id
  {
    Some(db, (person: Person<Id>) => person.id == from.id)
  }

  /** The people of `db` whose id is not `id`, in order: the list after
      everyone with that id has left. */
  function WithoutId<Id(==)>(db: seq<Person<Id>>, id: Id): seq<Person<Id>>
  {
    if db == [] then []
    else if db[0].id == id then WithoutId(db[1..], id)
    else [db[0]] + WithoutId(db[1..], id)
  }

  /** The ids of the people in `db`. */
  ghost function Ids<Id>(db: seq<Person<Id>>): set<Id>
  {
    set p | p in db :: p.id
  }

  /** The answer depends on nothing but the ids: two lists carrying the same
      set of ids, asked about people with the same id, agree. */
  lemma IsParticipantByIds<Id>(db1: seq<Person<Id>>, db2: seq<Person<Id>>, from1: Person<Id>, from2: Person<Id>)
    requires Ids(db1) == Ids(db2)
    requires from1.id == from2.id
    ensures IsParticipant(db1, from1) == IsParticipant(db2, from2)
  {
    if IsParticipant(db1, from1) {
      var j :| 0 <= j < |db1| && db1[j].id == from1.id;
      assert db1[j] in db1;
      assert db1[j].id in Ids(db2);
      var p :| p in db2 && p.id == db1[j].id;
      var i :| 0 <= i < |db2| && db2[i] == p;
    }
    if IsParticipant(db2, from2) {
      var j :| 0 <= j < |db2| && db2[j].id == from2.id;
      assert db2[j] in db2;
      assert db2[j].id in Ids(db1);
      var p :| p in db1 && p.id == db2[j].id;
      var i :| 0 <= i < |db1| && db1[i] == p;
    }
  }

  /** Once someone is appended to the list, they are a participant. */
  lemma JoinMakesParticipant<Id>(db: seq<Person<Id>>, from: Person<Id>)
    ensures IsParticipant(db + [from], from)
  {
    assert (db + [from])[|db|] == from;
  }

  /** Once everyone with their id has been removed, a person is not a
      participant any more. */
  lemma {:induction false} LeaveEndsParticipation<Id>(db: seq<Person<Id>>, from: Person<Id>)
    ensures !IsParticipant(WithoutId(db, from.id), from)
  {
    if db != [] {
      LeaveEndsParticipation(db[1..], from);
      IsParticipantConcat([db[0]], WithoutId(db[1..], from.id), from);
    }
  }

  /** Removing everyone with one id leaves everybody with another id as they
      were: a participant stays one, and a non-participant stays out. */
  lemma {:induction false} LeaveKeepsOthers<Id>(db: seq<Person<Id>>, from: Person<Id>, other: Person<Id>)
    requires other.id != from.id
    ensures IsParticipant(WithoutId(db, from.id), other) == IsParticipant(db, other)
  {
    if db != [] {
      LeaveKeepsOthers(db[1..], from, other);
      assert db == [db[0]] + db[1..];
      IsParticipantConcat([db[0]], db[1..], other);
      IsParticipantConcat([db[0]], WithoutId(db[1..], from.id), other);
    }
  }

  /** Membership in a joined list is membership in either part. */
  lemma IsParticipantConcat<Id>(a: seq<Person<Id>>, b: seq<Person<Id>>, from: Person<Id>)
    ensures IsParticipant(a + b, from) == (IsParticipant(a, from) || IsParticipant(b, from))
  {
    if IsParticipant(a, from) {
      var j :| 0 <= j < |a| && a[j].id == from.id;
      assert (a + b)[j] == a[j];
    }
    if IsParticipant(b, from) {
      var j :| 0 <= j < |b| && b[j].id == from.id;
      assert (a + b)[|a| + j] == b[j];
    }
    if IsParticipant(a + b, from) {
      var j :| 0 <= j < |a + b| && (a + b)[j].id == from.id;
      if j < |a| {
        assert a[j] == (a + b)[j];
      } else {
        assert b[j - |a|] == (a + b)[j];
      }
    }
  }
}
