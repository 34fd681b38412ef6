/** The reply structure among the stored emails: each email names the one
    it answers through its responseTo id. Nothing of it is stored; the
    mailbox walks it for the thread operations. All definitions take the
    stored emails in the mailbox's order. */
module ReplyForest {
  import opened Emails

  /** One step up, as markUpstreamAs takes it: the first stored email (in
      the mailbox's order) whose id is e's responseTo. None for a root, and
      for a reply whose parent is not stored. */
  function ParentOf(s: seq<Email>, e: Email): (r: Option<Email>)
    ensures r.Some? ==> r.value in s && e.responseTo == ReplyTo(r.value.id)
    ensures r.None? <==> IsRoot(e) || !HasId(s, e.responseTo.id)
  {
    if e.responseTo.NoParent? then None
    else match FirstIndexWithId(s, e.responseTo.id)
      case None => None
      case Some(k) => Some(s[k])
  }

  /** c answers e: the test both downward traversals apply. */
  predicate RepliesTo(c: Email, e: Email) {
    c.responseTo == ReplyTo(e.id)
  }

  /** The number of steps up from e to an email without a stored parent,
      when it takes at most fuel steps. */
  function ChainLength(s: seq<Email>, e: Email, fuel: nat): (r: Option<nat>)
    ensures r.Some? ==> r.value <= fuel
    decreases fuel
  {
    match ParentOf(s, e)
    case None => Some(0)
    case Some(p) =>
      if fuel == 0 then None
      else match ChainLength(s, p, fuel - 1)
        case None => None
        case Some(d) => Some(d + 1)
  }

  /** No chain of responseTo links among the stored emails runs in a circle:
      from every stored email the walk up ends within |s| steps. */
  ghost predicate Acyclic(s: seq<Email>) {
    forall e :: e in s ==> ChainLength(s, e, |s|).Some?
  }

  /** Every reply's parent is stored. */
  ghost predicate ParentClosed(s: seq<Email>) {
    forall e :: e in s && !IsRoot(e) ==> HasId(s, e.responseTo.id)
  }

  ghost function Depth(s: seq<Email>, e: Email): nat
    requires Acyclic(s) && e in s
  {
    ChainLength(s, e, |s|).value
  }

  lemma {:induction false} ChainLengthMonotone(s: seq<Email>, e: Email, f: nat, g: nat)
    requires f <= g && ChainLength(s, e, f).Some?
    ensures ChainLength(s, e, g) == ChainLength(s, e, f)
    decreases f
  {
    match ParentOf(s, e)
    case None =>
    case Some(p) => ChainLengthMonotone(s, p, f - 1, g - 1);
  }

  /** A parent sits exactly one level above its reply. */
  lemma ParentDepth(s: seq<Email>, e: Email, p: Email)
    requires Acyclic(s) && e in s && ParentOf(s, e) == Some(p)
    ensures p in s && Depth(s, p) + 1 == Depth(s, e)
  {
    ChainLengthMonotone(s, p, |s| - 1, |s|);
  }

  /** The emails markUpstreamAs visits from e: its parent, that one's parent,
      and so on up to the root. */
  ghost function Ancestors(s: seq<Email>, e: Email): (r: set<Email>)
    requires Acyclic(s) && e in s
    ensures forall a :: a in r ==> a in s && Depth(s, a) < Depth(s, e)
    decreases Depth(s, e)
  {
    match ParentOf(s, e)
    case None => {}
    case Some(p) => ParentDepth(s, e, p); {p} + Ancestors(s, p)
  }

  /** The transitive replies of e: the emails that have e among their
      ancestors. */
  ghost function Descendants(s: seq<Email>, e: Email): set<Email>
    requires Acyclic(s) && e in s
  {
    set d | d in s && e in Ancestors(s, d)
  }

  /** The thread getThread collects for e: e and its transitive replies. */
  ghost function Thread(s: seq<Email>, e: Email): set<Email>
    requires Acyclic(s) && e in s
  {
    {e} + Descendants(s, e)
  }

  /** What markThreadAsRead and markThreadAsUnread set: e, every ancestor
      and every transitive reply of e. */
  ghost function Lineage(s: seq<Email>, e: Email): set<Email>
    requires Acyclic(s) && e in s
  {
    {e} + Ancestors(s, e) + Descendants(s, e)
  }

  lemma NotOwnDescendant(s: seq<Email>, e: Email)
    requires Acyclic(s) && e in s
    ensures e !in Descendants(s, e) && e !in Ancestors(s, e)
  {
  }

  /** With unique ids, an email that answers e has e as its parent. */
  lemma ReplyParent(s: seq<Email>, c: Email, e: Email)
    requires UniqueIds(s) && e in s && RepliesTo(c, e)
    ensures ParentOf(s, c) == Some(e)
  {
    var j :| 0 <= j < |s| && s[j] == e;
    assert HasId(s, e.id);
    var k := FirstIndexWithId(s, e.id).value;
    assert s[k].id == s[j].id;
  }

  /** An ancestor's ancestors are ancestors too. */
  lemma {:induction false} AncestorsTransitive(s: seq<Email>, a: Email, d: Email)
    requires Acyclic(s) && d in s && a in Ancestors(s, d)
    ensures a in s && Ancestors(s, a) <= Ancestors(s, d)
    decreases Depth(s, d)
  {
    var p := ParentOf(s, d).value;
    if a != p {
      AncestorsTransitive(s, a, p);
    }
  }

  /** Along one chain upward there is one email per level. */
  lemma {:induction false} SameDepthOnChain(s: seq<Email>, d: Email, a: Email, b: Email)
    requires Acyclic(s) && d in s
    requires a == d || a in Ancestors(s, d)
    requires b == d || b in Ancestors(s, d)
    requires a in s && b in s && Depth(s, a) == Depth(s, b)
    ensures a == b
    decreases Depth(s, d)
  {
    if a != d && b != d {
      var p := ParentOf(s, d).value;
      ParentDepth(s, d, p);
      SameDepthOnChain(s, p, a, b);
    }
  }

  /** d descends from e exactly when it is, or descends from, a direct
      reply to e: the recursion of markDownstreamAs and addDownstream. */
  lemma {:induction false} DescendantsByReply(s: seq<Email>, e: Email, d: Email)
    requires UniqueIds(s) && Acyclic(s) && e in s && d in s
    ensures d in Descendants(s, e) <==>
              exists c :: c in s && RepliesTo(c, e) && (d == c || c in Ancestors(s, d))
    decreases Depth(s, d)
  {
    if d in Descendants(s, e) {
      var p := ParentOf(s, d).value;
      ParentDepth(s, d, p);
      if p == e {
        assert RepliesTo(d, e);
      } else {
        assert p in Descendants(s, e);
        DescendantsByReply(s, e, p);
        var c :| c in s && RepliesTo(c, e) && (p == c || c in Ancestors(s, p));
        assert c in Ancestors(s, d);
      }
    }
    if exists c :: c in s && RepliesTo(c, e) && (d == c || c in Ancestors(s, d)) {
      var c :| c in s && RepliesTo(c, e) && (d == c || c in Ancestors(s, d));
      ReplyParent(s, c, e);
      if d != c {
        AncestorsTransitive(s, c, d);
      }
    }
  }

  /** A direct reply sits one level below what it answers. */
  lemma ReplyDepth(s: seq<Email>, c: Email, e: Email)
    requires UniqueIds(s) && Acyclic(s) && e in s && c in s && RepliesTo(c, e)
    ensures Depth(s, c) == Depth(s, e) + 1
  {
    ReplyParent(s, c, e);
    ParentDepth(s, c, e);
  }

  /** What the loop over the stored emails has reached after its first i
      iterations: each direct reply to e among s[..i], with its own
      transitive replies. */
  ghost function ReachedThrough(s: seq<Email>, e: Email, i: nat): set<Email>
    requires Acyclic(s) && e in s && i <= |s|
  {
    if i == 0 then {}
    else ReachedThrough(s, e, i - 1) +
         (if RepliesTo(s[i - 1], e) then Thread(s, s[i - 1]) else {})
  }

  /** Everything the loop reaches descends from e. */
  lemma {:induction false} ReachedWithin(s: seq<Email>, e: Email, i: nat)
    requires UniqueIds(s) && Acyclic(s) && e in s && i <= |s|
    ensures ReachedThrough(s, e, i) <= Descendants(s, e)
  {
    if i > 0 {
      ReachedWithin(s, e, i - 1);
      if RepliesTo(s[i - 1], e) {
        forall x | x in Thread(s, s[i - 1]) ensures x in Descendants(s, e) {
          DescendantsByReply(s, e, x);
        }
      }
    }
  }

  /** Later iterations only add to what is reached. */
  lemma {:induction false} ReachedGrows(s: seq<Email>, e: Email, i: nat, k: nat)
    requires Acyclic(s) && e in s && i <= k <= |s|
    ensures ReachedThrough(s, e, i) <= ReachedThrough(s, e, k)
    decreases k - i
  {
    if i < k {
      ReachedGrows(s, e, i, k - 1);
    }
  }

  /** After the whole loop, exactly the transitive replies are reached. */
  lemma ReachedAll(s: seq<Email>, e: Email)
    requires UniqueIds(s) && Acyclic(s) && e in s
    ensures ReachedThrough(s, e, |s|) == Descendants(s, e)
  {
    ReachedWithin(s, e, |s|);
    forall x | x in Descendants(s, e) ensures x in ReachedThrough(s, e, |s|) {
      DescendantsByReply(s, e, x);
      var c :| c in s && RepliesTo(c, e) && (x == c || c in Ancestors(s, x));
      var j :| 0 <= j < |s| && s[j] == c;
      assert x in Thread(s, c);
      ReachedIncludes(s, e, j);
    }
  }

  /** The thread of a direct reply is reached by the end of the loop. */
  lemma {:induction false} ReachedIncludes(s: seq<Email>, e: Email, j: nat)
    requires Acyclic(s) && e in s && j < |s| && RepliesTo(s[j], e)
    ensures Thread(s, s[j]) <= ReachedThrough(s, e, |s|)
  {
    assert ReachedThrough(s, e, j + 1) == ReachedThrough(s, e, j) + Thread(s, s[j]);
    ReachedGrows(s, e, j + 1, |s|);
  }

  /** The thread of the next direct reply shares nothing with what earlier
      iterations reached: each email is collected once. */
  lemma {:induction false} ReachedDisjoint(s: seq<Email>, e: Email, i: nat)
    requires UniqueIds(s) && Acyclic(s) && e in s && i < |s| && RepliesTo(s[i], e)
    ensures ReachedThrough(s, e, i) !! Thread(s, s[i])
  {
    ReachedBefore(s, e, i, i);
  }

  /** What the first i iterations reached shares nothing with the thread of
      a later direct reply s[k]. */
  lemma {:induction false} ReachedBefore(s: seq<Email>, e: Email, i: nat, k: nat)
    requires UniqueIds(s) && Acyclic(s) && e in s && i <= k < |s| && RepliesTo(s[k], e)
    ensures ReachedThrough(s, e, i) !! Thread(s, s[k])
  {
    if i > 0 {
      ReachedBefore(s, e, i - 1, k);
      var last := if RepliesTo(s[i - 1], e) then Thread(s, s[i - 1]) else {};
      assert ReachedThrough(s, e, i) == ReachedThrough(s, e, i - 1) + last;
      if RepliesTo(s[i - 1], e) {
        assert s[i - 1] != s[k];
        SiblingsDisjoint(s, e, s[i - 1], s[k]);
      }
    }
  }

  /** The threads of two different direct replies to e are disjoint. */
  lemma SiblingsDisjoint(s: seq<Email>, e: Email, a: Email, b: Email)
    requires UniqueIds(s) && Acyclic(s) && e in s && a in s && b in s
    requires RepliesTo(a, e) && RepliesTo(b, e) && a != b
    ensures Thread(s, a) !! Thread(s, b)
  {
    forall x | x in Thread(s, a) && x in Thread(s, b) ensures false {
      ReplyDepth(s, a, e);
      ReplyDepth(s, b, e);
      SameDepthOnChain(s, x, a, b);
    }
  }

  /** The email at the top of e's chain of responseTo links. */
  ghost function RootOf(s: seq<Email>, e: Email): (r: Email)
    requires Acyclic(s) && e in s
    ensures r in s && ParentOf(s, r).None?
    ensures r == e || r in Ancestors(s, e)
    decreases Depth(s, e)
  {
    match ParentOf(s, e)
    case None => e
    case Some(p) => ParentDepth(s, e, p); RootOf(s, p)
  }

  /** Every message of the conversation e belongs to: its root's thread. */
  ghost function WholeThread(s: seq<Email>, e: Email): set<Email>
    requires Acyclic(s) && e in s
  {
    Thread(s, RootOf(s, e))
  }

  /** An ancestor has the same root. */
  lemma {:induction false} RootOfAncestor(s: seq<Email>, a: Email, e: Email)
    requires Acyclic(s) && e in s && a in Ancestors(s, e)
    ensures a in s && RootOf(s, a) == RootOf(s, e)
    decreases Depth(s, e)
  {
    var p := ParentOf(s, e).value;
    ParentDepth(s, e, p);
    if a != p {
      RootOfAncestor(s, a, p);
    }
  }

  /** One step of the climb to the root: the parent is stored, one level
      up, and has the same root. */
  lemma RootStep(s: seq<Email>, x: Email)
    requires Acyclic(s) && ParentClosed(s) && x in s && !IsRoot(x)
    ensures ParentOf(s, x).Some?
    ensures var p := ParentOf(s, x).value;
            p in s && Depth(s, p) < Depth(s, x) && RootOf(s, p) == RootOf(s, x)
  {
    ParentDepth(s, x, ParentOf(s, x).value);
  }

  /** The whole thread of e holds exactly the stored emails with e's root. */
  lemma WholeThreadMembers(s: seq<Email>, e: Email, x: Email)
    requires Acyclic(s) && e in s
    ensures x in WholeThread(s, e) <==> x in s && RootOf(s, x) == RootOf(s, e)
  {
    var r := RootOf(s, e);
    if x in WholeThread(s, e) && x != r {
      RootOfAncestor(s, r, x);
    }
  }

  /** The thread of a root holds exactly the stored emails whose upward
      walk ends at that root. */
  lemma ThreadOfRoot(s: seq<Email>, r: Email, x: Email)
    requires Acyclic(s) && r in s && IsRoot(r)
    ensures x in Thread(s, r) <==> x in s && RootOf(s, x) == r
  {
    assert RootOf(s, r) == r;
    WholeThreadMembers(s, r, x);
  }

  /** When every parent is stored, the upward walk ends at a true root. */
  lemma RootOfIsRoot(s: seq<Email>, x: Email)
    requires Acyclic(s) && ParentClosed(s) && x in s
    ensures IsRoot(RootOf(s, x))
  {
  }

  /** What markThreadAsRead reaches lies within the whole thread. */
  lemma LineageWithinWholeThread(s: seq<Email>, e: Email)
    requires Acyclic(s) && e in s
    ensures Lineage(s, e) <= WholeThread(s, e)
  {
    forall x | x in Lineage(s, e) ensures x in WholeThread(s, e) {
      if x in Ancestors(s, e) {
        RootOfAncestor(s, x, e);
      } else if x in Descendants(s, e) {
        RootOfAncestor(s, e, x);
      }
      WholeThreadMembers(s, e, x);
    }
  }

  /** A root, two replies to it, stored newest first. */
  function SiblingsExample(): seq<Email> {
    [Email(3, 30, ReplyTo(1)), Email(2, 20, ReplyTo(1)), Email(1, 10, NoParent)]
  }

  lemma SiblingsExampleRootIndex()
    ensures FirstIndexWithId(SiblingsExample(), 1) == Some(2)
  {
    var s := SiblingsExample();
    var r, a := Email(1, 10, NoParent), Email(2, 20, ReplyTo(1));
    assert s[1..] == [a, r];
    assert [a, r][1..] == [r];
    assert FirstIndexWithId([r], 1) == Some(0);
  }

  lemma SiblingsExampleLinks()
    ensures var s := SiblingsExample();
            ParentOf(s, s[2]).None? && ParentOf(s, s[1]) == Some(s[2]) &&
            ParentOf(s, s[0]) == Some(s[2])
  {
    var s := SiblingsExample();
    SiblingsExampleRootIndex();
    assert s[2].responseTo.NoParent?;
    assert s[1].responseTo == ReplyTo(1) && s[0].responseTo == ReplyTo(1);
  }

  lemma SiblingsExampleAcyclic()
    ensures Acyclic(SiblingsExample())
  {
    var s := SiblingsExample();
    SiblingsExampleLinks();
    assert ChainLength(s, s[2], 2) == Some(0);
    forall x | x in s ensures ChainLength(s, x, |s|).Some? {
    }
  }

  /** markThreadAsRead on one reply leaves the other reply to the same root
      untouched, though both belong to the root's thread. */
  lemma LineageMissesSibling()
    ensures Acyclic(SiblingsExample()) && UniqueIds(SiblingsExample())
    ensures var s := SiblingsExample();
            s[1] in s && s[0] in WholeThread(s, s[1]) && s[0] !in Lineage(s, s[1])
  {
    var s := SiblingsExample();
    SiblingsExampleLinks();
    SiblingsExampleAcyclic();
    assert Ancestors(s, s[1]) == {s[2]};
    assert Ancestors(s, s[0]) == {s[2]};
    assert RootOf(s, s[1]) == s[2];
    assert s[0] in Descendants(s, s[2]);
    assert s[0] !in Descendants(s, s[1]);
  }
}
