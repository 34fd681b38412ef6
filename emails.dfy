/** Emails as the mailbox sees them: an identifier, a timestamp and the
    identifier of the message they answer. The mailbox keeps its emails in
    the order given by its comparator (newest first, ties by descending
    identifier); this module defines that order and the operations on
    sequences kept in it. */
module Emails {

  /** Message identifiers. The source uses UUIDs, whose compareTo is a total
      order; an integer stands for one here. */
  type Id = int

  datatype Option<T> = None | Some(value: T)

  /** The responseTo field: the distinguished "no parent" value marks a
      thread root. */
  datatype Parent = NoParent | ReplyTo(id: Id)

  datatype Email = Email(id: Id, timestamp: int, responseTo: Parent)

  predicate IsRoot(e: Email) {
    e.responseTo == NoParent
  }

  /** UUID.compareTo: -1, 0 or 1. */
  function CompareIds(a: Id, b: Id): int {
    if a < b then -1 else if a == b then 0 else 1
  }

  /** The mailbox's comparator: a negative result puts e1 first. Newer
      timestamps come first; equal timestamps are ordered by descending id.
      The source subtracts timestamps; here the difference is exact. */
  function Compare(e1: Email, e2: Email): int {
    if e1.timestamp == e2.timestamp then CompareIds(e2.id, e1.id)
    else e2.timestamp - e1.timestamp
  }

  /** Two emails the comparator treats as the same key. */
  predicate SameKey(e1: Email, e2: Email) {
    e1.timestamp == e2.timestamp && e1.id == e2.id
  }

  /** The comparator is a strict total order on (timestamp, id) keys. */
  lemma CompareIsTotalOrder(a: Email, b: Email, c: Email)
    ensures Compare(a, b) == 0 <==> SameKey(a, b)
    ensures Compare(a, b) < 0 <==> Compare(b, a) > 0
    ensures Compare(a, b) < 0 && Compare(b, c) < 0 ==> Compare(a, c) < 0
    ensures Compare(a, b) < 0 <==>
              a.timestamp > b.timestamp || (a.timestamp == b.timestamp && a.id > b.id)
  {
  }

  /** The order in which the TreeMap iterates its keys: every email strictly
      before the next under the comparator, so no two share a key. */
  ghost predicate Canonical(s: seq<Email>) {
    forall i, j :: 0 <= i < j < |s| ==> Compare(s[i], s[j]) < 0
  }

  predicate UniqueIds(s: seq<Email>) {
    forall i, j :: 0 <= i < j < |s| ==> s[i].id != s[j].id
  }

  predicate HasId(s: seq<Email>, id: Id) {
    exists i | 0 <= i < |s| :: s[i].id == id
  }

  /** TreeMap.containsKey: is there a stored key that compares equal? */
  predicate ContainsKey(s: seq<Email>, m: Email) {
    exists i | 0 <= i < |s| :: Compare(s[i], m) == 0
  }

  /** The position of the first email with the given id, scanning in order. */
  function FirstIndexWithId(s: seq<Email>, id: Id): (r: Option<nat>)
    ensures r.Some? ==> r.value < |s| && s[r.value].id == id
    ensures r.Some? ==> forall j :: 0 <= j < r.value ==> s[j].id != id
    ensures r.None? <==> !HasId(s, id)
  {
    if s == [] then None
    else if s[0].id == id then Some(0)
    else match FirstIndexWithId(s[1..], id)
      case None => None
      case Some(k) => Some(k + 1)
  }

  /** The emails of s that satisfy p, in the order of s (a stream filter,
      and what removeIf leaves behind). */
  function Filter(s: seq<Email>, p: Email -> bool): (r: seq<Email>)
    ensures forall x :: x in r <==> x in s && p(x)
    ensures |r| <= |s|
  {
    if s == [] then []
    else if p(s[0]) then [s[0]] + Filter(s[1..], p)
    else Filter(s[1..], p)
  }

  /** Filtering keeps the comparator order. */
  lemma {:induction false} FilterCanonical(s: seq<Email>, p: Email -> bool)
    requires Canonical(s)
    ensures Canonical(Filter(s, p))
  {
    if s != [] {
      FilterCanonical(s[1..], p);
      if p(s[0]) {
        SubsequenceCons(s, Filter(s[1..], p));
      }
    }
  }

  /** Keeping the head of a canonical sequence in front of canonical
      elements drawn from its tail keeps the order canonical. */
  lemma SubsequenceCons(s: seq<Email>, rest: seq<Email>)
    requires s != [] && forall x :: x in rest ==> x in s[1..]
    ensures Canonical(s) && Canonical(rest) ==> Canonical([s[0]] + rest)
  {
    if Canonical(s) && Canonical(rest) {
      forall y | y in rest ensures Compare(s[0], y) < 0 {
        var k :| 0 <= k < |s[1..]| && s[1..][k] == y;
        assert s[k + 1] == y;
      }
      ConsCanonical(s[0], rest);
    }
  }

  /** The filter drops nothing exactly when every element passes, and then
      it returns s itself. */
  lemma FilterKeepsAll(s: seq<Email>, p: Email -> bool)
    ensures |Filter(s, p)| == |s| <==> forall i :: 0 <= i < |s| ==> p(s[i])
    ensures (forall i :: 0 <= i < |s| ==> p(s[i])) ==> Filter(s, p) == s
  {
    if forall i :: 0 <= i < |s| ==> p(s[i]) {
      FilterAllPass(s, p);
    } else {
      var i :| 0 <= i < |s| && !p(s[i]);
      FilterDrops(s, p, i);
    }
  }

  lemma {:induction false} FilterAllPass(s: seq<Email>, p: Email -> bool)
    requires forall i :: 0 <= i < |s| ==> p(s[i])
    ensures Filter(s, p) == s
  {
    if s != [] {
      assert forall i :: 0 <= i < |s[1..]| ==> p(s[1..][i]);
      FilterAllPass(s[1..], p);
      assert s == [s[0]] + s[1..];
    }
  }

  lemma {:induction false} FilterDrops(s: seq<Email>, p: Email -> bool, i: nat)
    requires i < |s| && !p(s[i])
    ensures |Filter(s, p)| < |s|
  {
    if i > 0 {
      assert s[1..][i - 1] == s[i];
      FilterDrops(s[1..], p, i - 1);
    }
  }

  lemma {:induction false} FilterAppend(s: seq<Email>, x: Email, p: Email -> bool)
    ensures Filter(s + [x], p) == Filter(s, p) + (if p(x) then [x] else [])
  {
    if s != [] {
      assert (s + [x])[1..] == s[1..] + [x];
      FilterAppend(s[1..], x, p);
    }
  }

  /** Storing a new key: it takes its place in comparator order. */
  function Insert(s: seq<Email>, m: Email): (r: seq<Email>)
    ensures multiset(r) == multiset(s) + multiset{m}
  {
    if s == [] then [m]
    else if Compare(m, s[0]) < 0 then [m] + s
    else
      assert s == [s[0]] + s[1..];
      [s[0]] + Insert(s[1..], m)
  }

  /** A key not yet stored takes a place that keeps the comparator order. */
  lemma {:induction false} InsertCanonical(s: seq<Email>, m: Email)
    requires Canonical(s) && !ContainsKey(s, m)
    ensures Canonical(Insert(s, m))
  {
    if s == [] {
    } else if Compare(m, s[0]) < 0 {
      BeforeAll(s, m);
      ConsCanonical(m, s);
    } else {
      CompareIsTotalOrder(s[0], m, s[0]);
      assert Compare(s[0], m) != 0;
      var rest := Insert(s[1..], m);
      assert !ContainsKey(s[1..], m) by {
        forall i | 0 <= i < |s[1..]| ensures Compare(s[1..][i], m) != 0 {
          assert s[1..][i] == s[i + 1];
        }
      }
      InsertCanonical(s[1..], m);
      AfterHead(s, m, rest);
      ConsCanonical(s[0], rest);
    }
  }

  /** An email ahead of the first of a canonical sequence is ahead of all. */
  lemma BeforeAll(s: seq<Email>, m: Email)
    requires Canonical(s) && s != [] && Compare(m, s[0]) < 0
    ensures forall y :: y in s ==> Compare(m, y) < 0
  {
    forall y | y in s ensures Compare(m, y) < 0 {
      var k :| 0 <= k < |s| && s[k] == y;
      if k > 0 {
        CompareIsTotalOrder(m, s[0], s[k]);
      }
    }
  }

  /** The head of a canonical sequence is ahead of everything in the tail
      with m inserted, when it is ahead of m. */
  lemma AfterHead(s: seq<Email>, m: Email, rest: seq<Email>)
    requires Canonical(s) && s != [] && Compare(s[0], m) < 0
    requires multiset(rest) == multiset(s[1..]) + multiset{m}
    ensures forall y :: y in rest ==> Compare(s[0], y) < 0
  {
    forall y | y in rest ensures Compare(s[0], y) < 0 {
      assert y in multiset(rest);
      if y != m {
        assert y in s[1..];
        var k :| 0 <= k < |s[1..]| && s[1..][k] == y;
        assert s[k + 1] == y;
      }
    }
  }

  lemma ConsCanonical(x: Email, t: seq<Email>)
    requires Canonical(t)
    requires forall y :: y in t ==> Compare(x, y) < 0
    ensures Canonical([x] + t)
  {
    forall i, j | 0 <= i < j < |[x] + t|
      ensures Compare(([x] + t)[i], ([x] + t)[j]) < 0
    {
      if i == 0 {
        assert ([x] + t)[j] == t[j - 1];
      } else {
        assert ([x] + t)[i] == t[i - 1] && ([x] + t)[j] == t[j - 1];
      }
    }
  }

  /** The tail of a canonical sequence is canonical and lacks the head. */
  lemma CanonicalTail(s: seq<Email>)
    requires Canonical(s) && s != []
    ensures Canonical(s[1..]) && s[0] !in s[1..]
  {
    forall i, j | 0 <= i < j < |s[1..]| ensures Compare(s[1..][i], s[1..][j]) < 0 {
      assert s[1..][i] == s[i + 1] && s[1..][j] == s[j + 1];
    }
    forall k | 0 <= k < |s[1..]| ensures s[1..][k] != s[0] {
      assert Compare(s[0], s[k + 1]) < 0;
    }
  }

  /** A sequence in canonical order holds every email at most once. */
  lemma {:induction false} CanonicalMultiplicity(s: seq<Email>)
    requires Canonical(s)
    ensures forall x :: multiset(s)[x] == if x in s then 1 else 0
  {
    if s != [] {
      CanonicalMultiplicity(s[1..]);
      assert s == [s[0]] + s[1..];
      assert s[0] !in s[1..];
    }
  }

  /** ... so it has as many elements as it has distinct emails. */
  lemma {:induction false} CanonicalCardinality(s: seq<Email>)
    requires Canonical(s)
    ensures |set x | x in s| == |s|
  {
    if s != [] {
      CanonicalCardinality(s[1..]);
      assert s[0] !in s[1..];
      assert (set x | x in s) == {s[0]} + (set x | x in s[1..]);
    }
  }

  /** removeIf on an id that at most one stored email carries removes
      exactly one email when there is one. */
  lemma {:induction false} FilterDropsUniqueId(s: seq<Email>, id: Id, p: Email -> bool)
    requires UniqueIds(s) && HasId(s, id)
    requires forall x :: p(x) <==> x.id != id
    ensures |Filter(s, p)| == |s| - 1
  {
    if s[0].id == id {
      assert forall i :: 0 <= i < |s[1..]| ==> p(s[1..][i]);
      FilterKeepsAll(s[1..], p);
    } else {
      assert HasId(s[1..], id) by {
        var i :| 0 <= i < |s| && s[i].id == id;
        assert s[1..][i - 1].id == id;
      }
      FilterDropsUniqueId(s[1..], id, p);
    }
  }
}
