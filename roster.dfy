/**
 * The room roster: the server's `usersById` map from connection id to
 * member record, kept as a sequence in insertion order (the iteration order
 * of a JavaScript `Map`), together with the room's configuration and the
 * invariant every handler keeps.
 */
module Roster {
  import opened Wrappers

  /** A connection id, assigned by the transport and opaque to the server. */
  type Id = string

  /** Room capacity. */
  const MAX_PARTICIPANTS: nat := 4

  /** The only usernames that may join, already in normalised form. */
  const ALLOWED_USERNAMES: set<string> := {"chaittnyapqr", "shradha2424", "chaittnya1414", "shradhapqr"}

  /** One admitted participant: the `{id, username}` record stored under its id. */
  datatype Member = Member(id: Id, username: string)

  /** Some entry of the roster is keyed by `id` (`usersById.has(id)`). */
  predicate HasId(r: seq<Member>, id: Id)
  {
    exists m :: m in r && m.id == id
  }

  /** Some member goes by `name` (the `.some(...)` scan of the join handler). */
  predicate HasName(r: seq<Member>, name: string)
  {
    exists m :: m in r && m.username == name
  }

  predicate DistinctIds(r: seq<Member>)
  {
    forall i, j :: 0 <= i < j < |r| ==> r[i].id != r[j].id
  }

  predicate DistinctNames(r: seq<Member>)
  {
    forall i, j :: 0 <= i < j < |r| ==> r[i].username != r[j].username
  }

  predicate AllAllowed(r: seq<Member>)
  {
    forall m :: m in r ==> m.username in ALLOWED_USERNAMES
  }

  /**
   * What the room guarantees at every point: at most MAX_PARTICIPANTS
   * entries, one entry per connection id (a map has distinct keys),
   * pairwise distinct usernames, and only allowed usernames.
   */
  predicate RosterInvariant(r: seq<Member>)
  {
    |r| <= MAX_PARTICIPANTS && DistinctIds(r) && DistinctNames(r) && AllAllowed(r)
  }

  /** The position of the first entry keyed by `id`, or |r| when there is none. */
  function Find(r: seq<Member>, id: Id): (k: nat)
    ensures k <= |r|
    ensures k < |r| ==> r[k].id == id
    ensures forall j :: 0 <= j < k ==> r[j].id != id
    ensures k < |r| <==> HasId(r, id)
  {
    if r == [] then 0
    else if r[0].id == id then 0
    else 1 + Find(r[1..], id)
  }

  /** `usersById.get(id)`. */
  function Lookup(r: seq<Member>, id: Id): (found: Option<Member>)
    ensures found.Some? <==> HasId(r, id)
    ensures found.Some? ==> found.value in r && found.value.id == id
  {
    var k := Find(r, id);
    if k < |r| then Some(r[k]) else None
  }

  /**
   * `usersById.set(m.id, m)`: an existing entry under the same key is
   * overwritten where it stands; otherwise the entry goes at the end.
   */
  function Put(r: seq<Member>, m: Member): (p: seq<Member>)
    ensures |p| == if HasId(r, m.id) then |r| else |r| + 1
    ensures !HasId(r, m.id) ==> p == r + [m]
    ensures forall i :: 0 <= i < |r| && r[i].id != m.id ==> p[i] == r[i]
  {
    var k := Find(r, m.id);
    if k < |r| then r[k := m] else r + [m]
  }

  /** After `Put`, the roster holds `m` and exactly the old entries under other keys. */
  lemma PutMembers(r: seq<Member>, m: Member)
    requires DistinctIds(r)
    ensures forall x :: x in Put(r, m) <==> x == m || (x in r && x.id != m.id)
  {
    var k := Find(r, m.id);
    var p := Put(r, m);
    if k < |r| {
      assert p[k] == m;
      forall x | x in p ensures x == m || (x in r && x.id != m.id) {
        var i :| 0 <= i < |p| && p[i] == x;
        if i != k {
          assert r[i] == x && r[i].id != r[k].id;
        }
      }
      forall x | x in r && x.id != m.id ensures x in p {
        var i :| 0 <= i < |r| && r[i] == x;
        assert p[i] == x;
      }
    }
  }

  /**
   * `usersById.delete(id)`: the entry under `id` goes, the others keep
   * their relative order.
   */
  function Delete(r: seq<Member>, id: Id): (d: seq<Member>)
    ensures |d| == if HasId(r, id) then |r| - 1 else |r|
    ensures !HasId(r, id) ==> d == r
    ensures HasId(r, id) ==>
      exists k :: 0 <= k < |r| && r[k].id == id && (forall j :: 0 <= j < k ==> r[j].id != id) &&
        d == r[..k] + r[k + 1..]
    ensures DistinctIds(r) ==> forall x :: x in d <==> x in r && x.id != id
  {
    var k := Find(r, id);
    if k < |r| then r[..k] + r[k + 1..] else r
  }

  /** The entries not keyed by `id`, in their original order. */
  function Excluding(r: seq<Member>, id: Id): (e: seq<Member>)
    ensures |e| <= |r|
  {
    if r == [] then []
    else (if r[0].id == id then [] else [r[0]]) + Excluding(r[1..], id)
  }

  /** Filtering out a key that is absent keeps the roster as it is. */
  lemma {:induction false} ExcludingAbsent(r: seq<Member>, id: Id)
    requires !HasId(r, id)
    ensures Excluding(r, id) == r
  {
    if r != [] {
      assert r[0] in r;
      assert !HasId(r[1..], id) by {
        forall m | m in r[1..] ensures m.id != id {
          assert m in r;
        }
      }
      ExcludingAbsent(r[1..], id);
    }
  }

  /** Past a leading entry under another key, `Delete` works on the rest. */
  lemma DeletePastHead(r: seq<Member>, id: Id)
    requires r != [] && r[0].id != id
    ensures Delete(r, id) == [r[0]] + Delete(r[1..], id)
  {
    var t := r[1..];
    var k := Find(t, id);
    assert Find(r, id) == k + 1;
    if k < |t| {
      assert r[..k + 1] == [r[0]] + t[..k];
      assert r[k + 2..] == t[k + 1..];
    } else {
      assert r == [r[0]] + t;
    }
  }

  /** The entries after the first of a roster with distinct keys are all keyed otherwise. */
  lemma TailDistinct(r: seq<Member>)
    requires r != [] && DistinctIds(r)
    ensures DistinctIds(r[1..]) && !HasId(r[1..], r[0].id)
  {
    var t := r[1..];
    forall i, j | 0 <= i < j < |t| ensures t[i].id != t[j].id {
      assert t[i] == r[i + 1] && t[j] == r[j + 1];
    }
    forall m | m in t ensures m.id != r[0].id {
      var j :| 0 <= j < |t| && t[j] == m;
      assert r[j + 1] == m;
    }
  }

  /**
   * On a roster with distinct keys, `Delete` keeps every other entry in
   * its original order: it is the order-keeping filter on the key.
   */
  lemma {:induction false} DeleteIsExcluding(r: seq<Member>, id: Id)
    requires DistinctIds(r)
    ensures Delete(r, id) == Excluding(r, id)
  {
    if r != [] {
      TailDistinct(r);
      if r[0].id == id {
        assert Delete(r, id) == r[1..];
        ExcludingAbsent(r[1..], id);
      } else {
        DeletePastHead(r, id);
        DeleteIsExcluding(r[1..], id);
      }
    }
  }

  /** Inserting an allowed, unused name into a roster with room to spare keeps the invariant. */
  lemma PutKeepsInvariant(r: seq<Member>, m: Member)
    requires RosterInvariant(r)
    requires m.username in ALLOWED_USERNAMES && !HasName(r, m.username)
    requires |r| < MAX_PARTICIPANTS
    ensures RosterInvariant(Put(r, m))
  {
    var k := Find(r, m.id);
    var p := Put(r, m);
    forall i, j | 0 <= i < j < |p|
      ensures p[i].id != p[j].id && p[i].username != p[j].username
    {
      assert r[..] == r;
      if k < |r| {
        assert p == r[k := m];
        if i != k && j != k {
          assert p[i] == r[i] && p[j] == r[j];
        } else if i == k {
          assert p[j] == r[j] && r[j] in r;
        } else {
          assert p[i] == r[i] && r[i] in r;
        }
      } else {
        assert p == r + [m];
        if j == |r| {
          assert p[i] == r[i] && r[i] in r;
        } else {
          assert p[i] == r[i] && p[j] == r[j];
        }
      }
    }
  }

  /** Removing an entry keeps the invariant. */
  lemma DeleteKeepsInvariant(r: seq<Member>, id: Id)
    requires RosterInvariant(r)
    ensures RosterInvariant(Delete(r, id))
  {
    var k := Find(r, id);
    if k < |r| {
      DropKeepsDistinct(r, k);
    }
  }

  /** Dropping one position keeps ids and usernames pairwise distinct. */
  lemma DropKeepsDistinct(r: seq<Member>, k: nat)
    requires k < |r| && DistinctIds(r) && DistinctNames(r)
    ensures DistinctIds(r[..k] + r[k + 1..]) && DistinctNames(r[..k] + r[k + 1..])
  {
    var d := r[..k] + r[k + 1..];
    forall i, j | 0 <= i < j < |d|
      ensures d[i].id != d[j].id && d[i].username != d[j].username
    {
      var i' := if i < k then i else i + 1;
      var j' := if j < k then j else j + 1;
      assert d[i] == r[i'] && d[j] == r[j'];
    }
  }

  /** The set of usernames on the roster. */
  function UsernamesOf(r: seq<Member>): set<string>
  {
    set m | m in r :: m.username
  }

  /** With distinct usernames, the roster has as many names as entries. */
  lemma {:induction false} UsernamesCount(r: seq<Member>)
    requires DistinctNames(r)
    ensures |UsernamesOf(r)| == |r|
  {
    if r != [] {
      var t := r[1..];
      assert DistinctNames(t) by {
        forall i, j | 0 <= i < j < |t| ensures t[i].username != t[j].username {
          assert t[i] == r[i + 1] && t[j] == r[j + 1];
        }
      }
      UsernamesCount(t);
      assert r[0].username !in UsernamesOf(t) by {
        forall m | m in t ensures m.username != r[0].username {
          var j :| 0 <= j < |t| && t[j] == m;
          assert m == r[j + 1];
        }
      }
      assert UsernamesOf(r) == {r[0].username} + UsernamesOf(t) by {
        assert r == [r[0]] + t;
      }
    }
  }

  /**
   * Because there are exactly MAX_PARTICIPANTS allowed usernames, a roster
   * that keeps the invariant and is full has taken every one of them.
   */
  lemma FullRosterTakesEveryName(r: seq<Member>)
    requires RosterInvariant(r) && |r| >= MAX_PARTICIPANTS
    ensures forall name :: name in ALLOWED_USERNAMES ==> HasName(r, name)
  {
    UsernamesCount(r);
    var names := UsernamesOf(r);
    assert names <= ALLOWED_USERNAMES;
    assert |ALLOWED_USERNAMES| == 4;
    assert |ALLOWED_USERNAMES - names| == 0;
    forall name | name in ALLOWED_USERNAMES ensures HasName(r, name) {
      assert name in names;
    }
  }
}
