/** The mailbox: a TreeMap from emails to read flags, iterated in the
    comparator's order. The key set is kept as a sequence in that order and
    the flags as a map over the same emails. */
module Mail {
  import opened Emails
  import opened Sorting
  import opened ReplyForest

  /** isRead's IllegalArgumentException. */
  datatype MailError = IllegalArgument

  datatype Result<T> = Success(value: T) | Failure(error: MailError)

  /** Sort keys for the three List.sort calls: "e2.ts - e1.ts" puts newer
      emails first, "e1.ts - e2.ts" older ones, and threads go newest first
      by the timestamp of their first email. */
  function NewestFirst(e: Email): int {
    -e.timestamp
  }

  function OldestFirst(e: Email): int {
    e.timestamp
  }

  function ThreadKey(t: seq<Email>): int {
    if t == [] then 0 else -t[0].timestamp
  }

  ghost predicate NewestFirstOrder(s: seq<Email>) {
    forall i, j :: 0 <= i < j < |s| ==> s[j].timestamp <= s[i].timestamp
  }

  lemma OldestFirstSorted(s: seq<Email>)
    requires SortedBy(s, OldestFirst)
    ensures forall i, j :: 0 <= i < j < |s| ==> s[i].timestamp <= s[j].timestamp
  {
    forall i, j | 0 <= i < j < |s| ensures s[i].timestamp <= s[j].timestamp {
      assert OldestFirst(s[i]) <= OldestFirst(s[j]);
    }
  }

  lemma NewestFirstSorted(s: seq<Email>)
    requires SortedBy(s, NewestFirst)
    ensures NewestFirstOrder(s)
  {
    forall i, j | 0 <= i < j < |s| ensures s[j].timestamp <= s[i].timestamp {
      assert NewestFirst(s[i]) <= NewestFirst(s[j]);
    }
  }

  /** flatMap(List::stream): the threads one after the other. */
  function Flatten(ts: seq<seq<Email>>): seq<Email> {
    if ts == [] then [] else ts[0] + Flatten(ts[1..])
  }

  /** The flag map after every email of S that it holds has been put with v. */
  function Updated(m: map<Email, bool>, S: set<Email>, v: bool): (r: map<Email, bool>)
    ensures r.Keys == m.Keys
    ensures forall x :: x in S && x in m ==> r[x] == v
    ensures forall x :: x !in S && x in m ==> r[x] == m[x]
  {
    map x | x in m :: if x in S then v else m[x]
  }

  /** Putting v for one more email extends the updated set by it. */
  lemma UpdatedPut(m0: map<Email, bool>, a: set<Email>, x: Email, v: bool)
    requires x in m0
    ensures Updated(m0, a, v)[x := v] == Updated(m0, a + {x}, v)
  {
  }

  lemma UpdatedTwice(m: map<Email, bool>, a: set<Email>, b: set<Email>, v: bool)
    ensures Updated(Updated(m, a, v), b, v) == Updated(m, a + b, v)
  {
  }

  lemma UpdatedOne(m: map<Email, bool>, x: Email, v: bool)
    requires x in m
    ensures m[x := v] == Updated(m, {x}, v)
  {
  }

  lemma UpdatedNothing(m: map<Email, bool>, v: bool)
    ensures Updated(m, {}, v) == m
  {
  }

  lemma MultisetOfDisjointUnion(a: set<Email>, b: set<Email>)
    requires a !! b
    ensures multiset(a + b) == multiset(a) + multiset(b)
  {
  }

  /** The flag map after removeIf on an id: every entry with another id. */
  function WithoutId(m: map<Email, bool>, id: Id): (r: map<Email, bool>)
    ensures forall x :: x in r <==> x in m && x.id != id
    ensures forall x :: x in r ==> r[x] == m[x]
  {
    map x | x in m && x.id != id :: m[x]
  }

  /** What removeIf on an id does to a canonical key sequence: it shrinks
      exactly when the id is stored, and keeps the order. */
  lemma RemoveById(s: seq<Email>, id: Id, kept: Email -> bool)
    requires Canonical(s)
    requires forall x :: kept(x) <==> x.id != id
    ensures |Filter(s, kept)| != |s| <==> HasId(s, id)
    ensures !HasId(s, id) ==> Filter(s, kept) == s
    ensures Canonical(Filter(s, kept))
    ensures forall x :: x in Filter(s, kept) <==> x in s && x.id != id
    ensures !HasId(Filter(s, kept), id)
  {
    var r := Filter(s, kept);
    forall i | 0 <= i < |r| ensures r[i].id != id {
      assert r[i] in r;
    }
    FilterKeepsAll(s, kept);
    FilterCanonical(s, kept);
  }

  /** Without a stored email carrying the id, the flag map stays as it is. */
  lemma WithoutAbsentId(s: seq<Email>, m: map<Email, bool>, id: Id)
    requires (forall e :: e in m <==> e in s) && !HasId(s, id)
    ensures WithoutId(m, id) == m
  {
    forall x | x in m ensures x.id != id {
      var i :| 0 <= i < |s| && s[i] == x;
    }
  }

  /** ... and the flag map loses exactly one entry when one email had it. */
  lemma RemoveByIdCount(s: seq<Email>, m: map<Email, bool>, id: Id, kept: Email -> bool)
    requires Canonical(s) && forall e :: e in m <==> e in s
    requires forall x :: kept(x) <==> x.id != id
    requires UniqueIds(s) && HasId(s, id)
    ensures |WithoutId(m, id)| == |m| - 1
  {
    var r := Filter(s, kept);
    FilterDropsUniqueId(s, id, kept);
    FilterCanonical(s, kept);
    CanonicalCardinality(r);
    assert WithoutId(m, id).Keys == set x | x in r;
    CanonicalCardinality(s);
    assert m.Keys == set x | x in s;
  }

  /** getUnreadMsgCount's stream count over the stored flags. */
  function CountUnread(s: seq<Email>, flags: map<Email, bool>): (n: nat)
    requires forall e :: e in s ==> e in flags
    ensures n <= |s|
  {
    if s == [] then 0
    else (if flags[s[0]] then 0 else 1) + CountUnread(s[1..], flags)
  }

  /** Over distinct emails the count is the number of unread ones. */
  lemma {:induction false} CountUnreadIsCardinality(s: seq<Email>, flags: map<Email, bool>)
    requires Canonical(s) && forall e :: e in s ==> e in flags
    ensures CountUnread(s, flags) == |set e | e in s && !flags[e]|
  {
    if s != [] {
      CanonicalTail(s);
      CountUnreadIsCardinality(s[1..], flags);
      UnreadCons(s, flags);
    }
  }

  lemma UnreadCons(s: seq<Email>, flags: map<Email, bool>)
    requires s != [] && forall e :: e in s ==> e in flags
    ensures (set e | e in s && !flags[e]) ==
            (if flags[s[0]] then {} else {s[0]}) + (set e | e in s[1..] && !flags[e])
  {
    assert forall x :: x in s <==> x == s[0] || x in s[1..] by {
      assert s == [s[0]] + s[1..];
    }
  }

  /** One step of markUpstreamAs: the parent joins the marked emails. */
  lemma UpstreamStep(s: seq<Email>, start: Email, email: Email, marked: set<Email>)
    requires Acyclic(s) && ParentClosed(s) && start in s && email in s && !IsRoot(email)
    requires marked + Ancestors(s, email) == Ancestors(s, start)
    ensures ParentOf(s, email).Some?
    ensures FirstIndexWithId(s, email.responseTo.id).Some?
    ensures var p := ParentOf(s, email).value;
            p == s[FirstIndexWithId(s, email.responseTo.id).value] &&
            Depth(s, p) < Depth(s, email) &&
            (marked + {p}) + Ancestors(s, p) == Ancestors(s, start)
  {
    var p := ParentOf(s, email).value;
    ParentDepth(s, email, p);
  }

  /** One iteration of addDownstream that meets the reply s[i] to e: what
      it appends is new, so the collected emails grow by its thread. */
  lemma AppendStep(s: seq<Email>, e: Email, i: nat, thread: seq<Email>, added: seq<Email>,
                   before: seq<Email>, out: seq<Email>)
    requires UniqueIds(s) && Acyclic(s) && e in s && i < |s| && RepliesTo(s[i], e)
    requires before == thread + added
    requires multiset(added) == multiset(ReachedThrough(s, e, i))
    requires |before| <= |out| && out[..|before|] == before
    requires multiset(out[|before|..]) == multiset(Thread(s, s[i]))
    ensures out == thread + (added + out[|before|..])
    ensures multiset(added + out[|before|..]) == multiset(ReachedThrough(s, e, i + 1))
  {
    assert out == out[..|before|] + out[|before|..];
    ReachedDisjoint(s, e, i);
    MultisetOfDisjointUnion(ReachedThrough(s, e, i), Thread(s, s[i]));
  }

  /** What follows thread: c, then c's transitive replies. */
  lemma ThreadSplit(s: seq<Email>, c: Email, thread: seq<Email>, out: seq<Email>)
    requires Acyclic(s) && c in s
    requires |thread + [c]| <= |out| && out[..|thread + [c]|] == thread + [c]
    requires multiset(out[|thread + [c]|..]) == multiset(Descendants(s, c))
    ensures |thread| <= |out| && out[..|thread|] == thread
    ensures multiset(out[|thread|..]) == multiset(Thread(s, c))
  {
    assert out[..|thread|] == out[..|thread + [c]|][..|thread|];
    assert out[|thread|..] == [c] + out[|thread + [c]|..];
    NotOwnDescendant(s, c);
    MultisetOfDisjointUnion({c}, Descendants(s, c));
  }

  /** One block of the threaded view: the thread of root r, newest first. */
  ghost predicate IsThreadBlock(s: seq<Email>, r: Email, b: seq<Email>) {
    && Acyclic(s) && r in s && IsRoot(r)
    && multiset(b) == multiset(Thread(s, r))
    && NewestFirstOrder(b)
  }

  /** How often the concatenated blocks hold x, when each block holds it
      once exactly if x is present and the block's root is y. */
  lemma {:induction false} FlattenCount(roots: seq<Email>, blocks: seq<seq<Email>>, x: Email,
                                        present: bool, y: Email)
    requires |roots| == |blocks|
    requires forall k :: 0 <= k < |blocks| ==>
               multiset(blocks[k])[x] == if present && roots[k] == y then 1 else 0
    ensures multiset(Flatten(blocks))[x] == if present then multiset(roots)[y] else 0
  {
    if blocks != [] {
      assert forall k :: 0 <= k < |blocks[1..]| ==> blocks[1..][k] == blocks[k + 1] && roots[1..][k] == roots[k + 1];
      FlattenCount(roots[1..], blocks[1..], x, present, y);
      assert multiset(Flatten(blocks)) == multiset(blocks[0]) + multiset(Flatten(blocks[1..]));
      assert roots == [roots[0]] + roots[1..];
      assert multiset(roots) == multiset{roots[0]} + multiset(roots[1..]);
    }
  }

  /** The threaded view holds each stored email whose upward walk ends at a
      root exactly once, and nothing else; with every parent stored, that
      is every stored email. */
  lemma ThreadedViewCount(s: seq<Email>, flags: map<Email, bool>, view: seq<Email>,
                          roots: seq<Email>, blocks: seq<seq<Email>>)
    requires Acyclic(s) && (forall e :: e in flags <==> e in s)
    requires view == Flatten(blocks) && |roots| == |blocks|
    requires forall x :: multiset(roots)[x] == if x in flags && IsRoot(x) then 1 else 0
    requires forall k :: 0 <= k < |blocks| ==> IsThreadBlock(s, roots[k], blocks[k])
    ensures forall x :: multiset(view)[x] == if x in s && IsRoot(RootOf(s, x)) then 1 else 0
    ensures ParentClosed(s) ==> forall x :: multiset(view)[x] == if x in s then 1 else 0
  {
    forall x ensures multiset(view)[x] == if x in s then multiset(roots)[RootOf(s, x)] else 0 {
      var y := if x in s then RootOf(s, x) else x;
      forall k | 0 <= k < |blocks|
        ensures multiset(blocks[k])[x] == if x in s && roots[k] == y then 1 else 0
      {
        assert IsThreadBlock(s, roots[k], blocks[k]);
        ThreadOfRoot(s, roots[k], x);
      }
      FlattenCount(roots, blocks, x, x in s, y);
    }
    if ParentClosed(s) {
      forall x | x in s ensures IsRoot(RootOf(s, x)) {
        RootOfIsRoot(s, x);
      }
    }
  }

  /** One more stored email seen by getThreadedView's loop. */
  lemma RootsStep(s: seq<Email>, i: nat)
    requires i < |s|
    ensures Filter(s[..i + 1], IsRoot) == Filter(s[..i], IsRoot) + (if IsRoot(s[i]) then [s[i]] else [])
  {
    assert s[..i + 1] == s[..i] + [s[i]];
    FilterAppend(s[..i], s[i], IsRoot);
  }

  /** The sort key of a (root, block) pair: its block's. */
  function BlockKey(p: (Email, seq<Email>)): int {
    ThreadKey(p.1)
  }

  /** Sorting the (root, block) pairs collected for the roots of s by their
      blocks' first timestamps: the blocks come out as sorting the blocks
      alone would order them, each root once, every pair still a thread
      block, and the blocks newest first. */
  lemma SortedThreadBlocks(s: seq<Email>, pairs: seq<(Email, seq<Email>)>)
    requires Canonical(s) && Firsts(pairs) == Filter(s, IsRoot)
    requires forall p :: p in pairs ==> IsThreadBlock(s, p.0, p.1)
    ensures Seconds(SortBy(pairs, BlockKey)) == SortBy(Seconds(pairs), ThreadKey)
    ensures forall x :: multiset(Firsts(SortBy(pairs, BlockKey)))[x] ==
              if x in s && IsRoot(x) then 1 else 0
    ensures forall k :: 0 <= k < |SortBy(pairs, BlockKey)| ==>
              IsThreadBlock(s, SortBy(pairs, BlockKey)[k].0, SortBy(pairs, BlockKey)[k].1)
    ensures forall k, l :: 0 <= k < l < |SortBy(pairs, BlockKey)| ==>
              var bk := SortBy(pairs, BlockKey)[k].1;
              var bl := SortBy(pairs, BlockKey)[l].1;
              bk != [] && bl != [] && bl[0].timestamp <= bk[0].timestamp
  {
    var sorted := SortBy(pairs, BlockKey);
    SortBySeconds(pairs, BlockKey, ThreadKey);
    SortByFirsts(pairs, BlockKey);
    FilterCanonical(s, IsRoot);
    CanonicalMultiplicity(Filter(s, IsRoot));
    forall k | 0 <= k < |sorted|
      ensures IsThreadBlock(s, sorted[k].0, sorted[k].1)
    {
      assert sorted[k] in multiset(pairs);
    }
    forall k, l | 0 <= k < l < |sorted|
      ensures sorted[k].1 != [] && sorted[l].1 != []
      ensures sorted[l].1[0].timestamp <= sorted[k].1[0].timestamp
    {
      assert sorted[k].0 in multiset(sorted[k].1);
      assert sorted[l].0 in multiset(sorted[l].1);
      assert BlockKey(sorted[k]) <= BlockKey(sorted[l]);
    }
  }

  class MailBox {
    /** The TreeMap's keys in iteration order. */
    var keys: seq<Email>
    /** The TreeMap's values: the read flag of each stored email. */
    var flags: map<Email, bool>

    ghost predicate Valid()
      reads this
    {
      Canonical(keys) && forall e :: e in flags <==> e in keys
    }

    constructor ()
      ensures Valid() && keys == [] && flags == map[]
    {
      keys := [];
      flags := map[];
    }

    /** addMsg: a null message (None) or one whose key is already stored is
        refused; otherwise it is stored as unread. */
    method AddMsg(msg: Option<Email>) returns (added: bool)
      requires Valid()
      modifies this
      ensures Valid()
      ensures added == (msg.Some? && !ContainsKey(old(keys), msg.value))
      ensures added ==> multiset(keys) == multiset(old(keys)) + multiset{msg.value}
      ensures added ==> flags == old(flags)[msg.value := false]
      ensures added ==> |flags| == |old(flags)| + 1
      ensures !added ==> keys == old(keys) && flags == old(flags)
    {
      if msg.None? {
        return false;
      }
      var m := msg.value;
      if ContainsKey(keys, m) {
        return false;
      }
      ghost var before := keys;
      InsertCanonical(keys, m);
      keys := Insert(keys, m);
      flags := flags[m := false];
      assert m !in before;
      forall e ensures e in flags <==> e in keys {
        assert e in keys <==> e in multiset(keys);
      }
      added := true;
    }

    /** getMsg: the first stored email, in the mailbox's order, with this id;
        None when no stored email has it. */
    function GetMsg(id: Id): (r: Option<Email>)
      reads this
      requires Valid()
      ensures r.None? <==> forall x :: x in keys ==> x.id != id
      ensures r.Some? ==> r.value in flags && r.value.id == id
      ensures r.Some? ==> forall x :: x in keys && x.id == id && x != r.value ==> Compare(r.value, x) < 0
    {
      match FirstIndexWithId(keys, id)
      case None => None
      case Some(k) =>
        assert forall j :: 0 <= j < |keys| && keys[j].id == id && j != k ==> k < j;
        Some(keys[k])
    }

    /** delMsg: removeIf on the id, which removes every stored email that
        carries it and reports whether there was one. */
    method DelMsg(id: Id) returns (deleted: bool)
      requires Valid()
      modifies this
      ensures Valid()
      ensures deleted == old(HasId(keys, id))
      ensures forall x :: x in keys <==> x in old(keys) && x.id != id
      ensures flags == WithoutId(old(flags), id)
      ensures !HasId(keys, id)
      ensures !deleted ==> keys == old(keys) && flags == old(flags)
      ensures deleted && old(UniqueIds(keys)) ==> |flags| == |old(flags)| - 1
    {
      var kept := (x: Email) => x.id != id;
      var remaining := Filter(keys, kept);
      RemoveById(keys, id, kept);
      if !HasId(keys, id) {
        WithoutAbsentId(keys, flags, id);
      } else if UniqueIds(keys) {
        RemoveByIdCount(keys, flags, id, kept);
      }
      deleted := |remaining| != |keys|;
      keys := remaining;
      flags := WithoutId(flags, id);
    }

    /** getMsgCount: the number of stored emails. */
    function GetMsgCount(): (n: nat)
      reads this
      requires Valid()
      ensures n == |flags|
    {
      CanonicalCardinality(keys);
      assert flags.Keys == set x | x in keys;
      |keys|
    }

    /** markRead: puts true for the email getMsg finds. */
    method MarkRead(id: Id) returns (found: bool)
      requires Valid()
      modifies this`flags
      ensures Valid()
      ensures found == HasId(keys, id)
      ensures found ==> flags == old(flags)[GetMsg(id).value := true]
      ensures !found ==> flags == old(flags)
      ensures found ==> IsRead(id) == Success(true)
    {
      var email := GetMsg(id);
      if email.None? {
        return false;
      }
      flags := flags[email.value := true];
      return true;
    }

    /** markUnread: puts false for the email getMsg finds. */
    method MarkUnread(id: Id) returns (found: bool)
      requires Valid()
      modifies this`flags
      ensures Valid()
      ensures found == HasId(keys, id)
      ensures found ==> flags == old(flags)[GetMsg(id).value := false]
      ensures !found ==> flags == old(flags)
      ensures found ==> IsRead(id) == Success(false)
    {
      var email := GetMsg(id);
      if email.None? {
        return false;
      }
      flags := flags[email.value := false];
      return true;
    }

    /** isRead: the flag of the email getMsg finds; an IllegalArgument
        failure when no stored email has the id. */
    function IsRead(id: Id): (r: Result<bool>)
      reads this
      requires Valid()
      ensures r.Failure? <==> forall x :: x in flags ==> x.id != id
      ensures r.Success? ==> exists x :: x in flags && x.id == id && flags[x] == r.value
      ensures r.Success? ==> r.value == flags[GetMsg(id).value]
    {
      match GetMsg(id)
      case None => Failure(IllegalArgument)
      case Some(email) => Success(flags[email])
    }

    /** getUnreadMsgCount: how many stored emails are unread. */
    function GetUnreadMsgCount(): (n: nat)
      reads this
      requires Valid()
      ensures n == |set e | e in flags && !flags[e]|
      ensures n <= GetMsgCount()
    {
      CountUnreadIsCardinality(keys, flags);
      assert (set e | e in flags && !flags[e]) == (set e | e in keys && !flags[e]);
      CountUnread(keys, flags)
    }

    /** getTimestampView: every stored email once, newest first, equal
        timestamps by descending id. */
    function GetTimestampView(): (r: seq<Email>)
      reads this
      requires Valid()
      ensures forall x :: multiset(r)[x] == if x in flags then 1 else 0
      ensures forall i, j :: 0 <= i < j < |r| ==>
                r[i].timestamp > r[j].timestamp ||
                (r[i].timestamp == r[j].timestamp && r[i].id > r[j].id)
    {
      CanonicalMultiplicity(keys);
      keys
    }

    /** getMsgsInRange: every stored email with start <= timestamp <= end,
        once, oldest first. */
    function GetMsgsInRange(start: int, end: int): (r: seq<Email>)
      reads this
      requires Valid()
      ensures forall x :: multiset(r)[x] ==
                if x in flags && start <= x.timestamp <= end then 1 else 0
      ensures forall i, j :: 0 <= i < j < |r| ==> r[i].timestamp <= r[j].timestamp
    {
      var inWindow := (e: Email) => start <= e.timestamp <= end;
      var inRange := Filter(keys, inWindow);
      FilterCanonical(keys, inWindow);
      CanonicalMultiplicity(inRange);
      var sorted := SortBy(inRange, OldestFirst);
      OldestFirstSorted(sorted);
      sorted
    }

    /** markUpstreamAs: walks responseTo links from start up to a root,
        putting the flag on every email it reaches. */
    method MarkUpstreamAs(start: Email, read: bool)
      requires Acyclic(keys) && ParentClosed(keys) && start in keys
      requires forall x :: x in keys ==> x in flags
      modifies this`flags
      ensures flags == Updated(old(flags), Ancestors(keys, start), read)
    {
      var email := start;
      ghost var marked: set<Email> := {};
      while email.responseTo != NoParent
        invariant email in keys
        invariant marked + Ancestors(keys, email) == Ancestors(keys, start)
        invariant flags == Updated(old(flags), marked, read)
        decreases Depth(keys, email)
      {
        // getMsg on the responseTo id
        var parent := ParentOf(keys, email);
        UpstreamStep(keys, start, email, marked);
        email := parent.value;
        UpdatedPut(old(flags), marked, email, read);
        flags := flags[email := read];
        marked := marked + {email};
      }
    }

    /** markDownstreamAs: for every stored email that answers e, puts the
        flag and recurses into its replies. */
    method MarkDownstreamAs(e: Email, read: bool)
      requires UniqueIds(keys) && Acyclic(keys) && e in keys
      requires forall x :: x in keys ==> x in flags
      modifies this`flags
      ensures flags == Updated(old(flags), Descendants(keys, e), read)
      decreases |keys| + 1 - Depth(keys, e), 2
    {
      var i := 0;
      while i < |keys|
        invariant 0 <= i <= |keys|
        invariant flags == Updated(old(flags), ReachedThrough(keys, e, i), read)
      {
        MarkDownstreamStep(e, i, read);
        UpdatedTwice(old(flags), ReachedThrough(keys, e, i),
                     if RepliesTo(keys[i], e) then Thread(keys, keys[i]) else {}, read);
        i := i + 1;
      }
      ReachedAll(keys, e);
    }

    /** The body of markDownstreamAs's loop for the stored email keys[i]:
        a direct reply to e is marked with its transitive replies, any other
        email is passed over. */
    method MarkDownstreamStep(e: Email, i: nat, read: bool)
      requires UniqueIds(keys) && Acyclic(keys) && e in keys && i < |keys|
      requires forall x :: x in keys ==> x in flags
      modifies this`flags
      ensures flags == Updated(old(flags), if RepliesTo(keys[i], e) then Thread(keys, keys[i]) else {}, read)
      decreases |keys| + 1 - Depth(keys, e), 1
    {
      if keys[i].responseTo == ReplyTo(e.id) {
        MarkReplyThreadAs(e, i, read);
      } else {
        UpdatedNothing(flags, read);
      }
    }

    /** One turn of markDownstreamAs's loop that meets a reply: the reply is
        put with the flag, then its own transitive replies. */
    method MarkReplyThreadAs(e: Email, i: nat, read: bool)
      requires UniqueIds(keys) && Acyclic(keys) && e in keys && i < |keys| && RepliesTo(keys[i], e)
      requires forall x :: x in keys ==> x in flags
      modifies this`flags
      ensures flags == Updated(old(flags), Thread(keys, keys[i]), read)
      decreases |keys| + 1 - Depth(keys, e), 0
    {
      ReplyDepth(keys, keys[i], e);
      UpdatedOne(flags, keys[i], read);
      flags := flags[keys[i] := read];
      MarkDownstreamAs(keys[i], read);
      UpdatedTwice(old(flags), {keys[i]}, Descendants(keys, keys[i]), read);
    }

    /** markThreadAsRead: the email with the id, its ancestors and its
        transitive replies all become read. */
    method MarkThreadAsRead(id: Id) returns (found: bool)
      requires Valid() && UniqueIds(keys) && Acyclic(keys) && ParentClosed(keys)
      modifies this`flags
      ensures Valid()
      ensures found == HasId(keys, id)
      ensures found ==> flags == Updated(old(flags), Lineage(keys, GetMsg(id).value), true)
      ensures !found ==> flags == old(flags)
    {
      var email := GetMsg(id);
      if email.None? {
        return false;
      }
      UpdatedOne(flags, email.value, true);
      flags := flags[email.value := true];
      MarkUpstreamAs(email.value, true);
      UpdatedTwice(old(flags), {email.value}, Ancestors(keys, email.value), true);
      MarkDownstreamAs(email.value, true);
      UpdatedTwice(old(flags), {email.value} + Ancestors(keys, email.value),
                   Descendants(keys, email.value), true);
      return true;
    }

    /** markThreadAsUnread: the email with the id, its ancestors and its
        transitive replies all become unread. */
    method MarkThreadAsUnread(id: Id) returns (found: bool)
      requires Valid() && UniqueIds(keys) && Acyclic(keys) && ParentClosed(keys)
      modifies this`flags
      ensures Valid()
      ensures found == HasId(keys, id)
      ensures found ==> flags == Updated(old(flags), Lineage(keys, GetMsg(id).value), false)
      ensures !found ==> flags == old(flags)
    {
      var email := GetMsg(id);
      if email.None? {
        return false;
      }
      UpdatedOne(flags, email.value, false);
      flags := flags[email.value := false];
      MarkUpstreamAs(email.value, false);
      UpdatedTwice(old(flags), {email.value}, Ancestors(keys, email.value), false);
      MarkDownstreamAs(email.value, false);
      UpdatedTwice(old(flags), {email.value} + Ancestors(keys, email.value),
                   Descendants(keys, email.value), false);
      return true;
    }

    /** markThreadAsRead and markThreadAsUnread as their documentation
        describes them: every message of the email's thread gets the flag,
        other replies to its ancestors included. The walk climbs to the
        root, then marks the root and its transitive replies. */
    method MarkWholeThreadAs(id: Id, read: bool) returns (found: bool)
      requires Valid() && UniqueIds(keys) && Acyclic(keys) && ParentClosed(keys)
      modifies this`flags
      ensures Valid()
      ensures found == HasId(keys, id)
      ensures found ==> flags == Updated(old(flags), WholeThread(keys, GetMsg(id).value), read)
      ensures !found ==> flags == old(flags)
    {
      var email := GetMsg(id);
      if email.None? {
        return false;
      }
      var root := ClimbToRoot(email.value);
      UpdatedOne(flags, root, read);
      flags := flags[root := read];
      MarkDownstreamAs(root, read);
      UpdatedTwice(old(flags), {root}, Descendants(keys, root), read);
      return true;
    }

    /** The upward walk of markUpstreamAs, without marking: from e to the
        root of its thread. */
    method ClimbToRoot(e: Email) returns (root: Email)
      requires Acyclic(keys) && ParentClosed(keys) && e in keys
      ensures root in keys && IsRoot(root) && root == RootOf(keys, e)
    {
      root := e;
      while root.responseTo != NoParent
        invariant root in keys && RootOf(keys, root) == RootOf(keys, e)
        decreases Depth(keys, root)
      {
        RootStep(keys, root);
        root := ParentOf(keys, root).value;
      }
    }

    /** addDownstream: appends every transitive reply of e to thread, each
        once, after what thread already holds. */
    method AddDownstream(e: Email, thread: seq<Email>) returns (out: seq<Email>)
      requires UniqueIds(keys) && Acyclic(keys) && e in keys
      ensures |thread| <= |out| && out[..|thread|] == thread
      ensures multiset(out[|thread|..]) == multiset(Descendants(keys, e))
      decreases |keys| + 1 - Depth(keys, e), 1
    {
      out := thread;
      ghost var added: seq<Email> := [];
      var i := 0;
      while i < |keys|
        invariant 0 <= i <= |keys|
        invariant out == thread + added
        invariant multiset(added) == multiset(ReachedThrough(keys, e, i))
      {
        if keys[i].responseTo == ReplyTo(e.id) {
          ghost var before := out;
          out := AddReplyThread(e, i, out);
          AppendStep(keys, e, i, thread, added, before, out);
          added := added + out[|before|..];
        }
        i := i + 1;
      }
      ReachedAll(keys, e);
      assert out[|thread|..] == added;
    }

    /** One turn of addDownstream's loop that meets a reply: the reply is
        appended, then its own transitive replies. */
    method AddReplyThread(e: Email, i: nat, thread: seq<Email>) returns (out: seq<Email>)
      requires UniqueIds(keys) && Acyclic(keys) && e in keys && i < |keys| && RepliesTo(keys[i], e)
      ensures |thread| <= |out| && out[..|thread|] == thread
      ensures multiset(out[|thread|..]) == multiset(Thread(keys, keys[i]))
      decreases |keys| + 1 - Depth(keys, e), 0
    {
      ReplyDepth(keys, keys[i], e);
      out := AddDownstream(keys[i], thread + [keys[i]]);
      ThreadSplit(keys, keys[i], thread, out);
    }

    /** getThread: e and its transitive replies, newest first. */
    method GetThread(e: Email) returns (thread: seq<Email>)
      requires UniqueIds(keys) && Acyclic(keys) && e in keys
      ensures multiset(thread) == multiset(Thread(keys, e))
      ensures NewestFirstOrder(thread)
    {
      thread := [e];
      thread := AddDownstream(e, thread);
      ThreadSplit(keys, e, [], thread);
      thread := SortBy(thread, NewestFirst);
      NewestFirstSorted(thread);
    }

    /** getThreadedView: one block per root, holding its thread newest first;
        blocks ordered newest first by their first email. The ghost results
        name each block and its root. */
    method GetThreadedView() returns (view: seq<Email>, ghost roots: seq<Email>, ghost blocks: seq<seq<Email>>)
      requires Valid() && UniqueIds(keys) && Acyclic(keys)
      ensures view == Flatten(blocks)
      ensures |roots| == |blocks|
      ensures forall x :: multiset(roots)[x] == if x in flags && IsRoot(x) then 1 else 0
      ensures forall k :: 0 <= k < |blocks| ==> IsThreadBlock(keys, roots[k], blocks[k])
      ensures forall k, l :: 0 <= k < l < |blocks| ==>
                blocks[k] != [] && blocks[l] != [] && blocks[l][0].timestamp <= blocks[k][0].timestamp
      ensures forall x :: multiset(view)[x] == if x in keys && IsRoot(RootOf(keys, x)) then 1 else 0
      ensures ParentClosed(keys) ==> forall x :: multiset(view)[x] == if x in keys then 1 else 0
    {
      var threads: seq<seq<Email>> := [];
      ghost var pairs: seq<(Email, seq<Email>)> := [];
      var i := 0;
      while i < |keys|
        invariant 0 <= i <= |keys|
        invariant Seconds(pairs) == threads
        invariant Firsts(pairs) == Filter(keys[..i], IsRoot)
        invariant forall p :: p in pairs ==> IsThreadBlock(keys, p.0, p.1)
      {
        var email := keys[i];
        RootsStep(keys, i);
        if IsRoot(email) {
          var thread := GetThread(email);
          PairsSnoc(pairs, (email, thread));
          threads := threads + [thread];
          pairs := pairs + [(email, thread)];
        }
        i := i + 1;
      }
      assert keys[..|keys|] == keys;
      SortedThreadBlocks(keys, pairs);
      threads := SortBy(threads, ThreadKey);
      view := Flatten(threads);
      roots := Firsts(SortBy(pairs, BlockKey));
      blocks := threads;
      ThreadedViewCount(keys, flags, view, roots, blocks);
    }
  }
}
