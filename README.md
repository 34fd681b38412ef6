# MailBox in Dafny

A model of the `MailBox` class of an in-memory email container
(`src/main/java/email/MailBox.java`), with proofs of what its operations promise.
The mailbox stores emails in a `TreeMap` from email to read flag. The map is ordered by a
comparator: newest timestamp first, and equal timestamps by descending id.

Operations:
- add, look up and delete emails, by comparator key or by id;
- read and set read flags, and count unread emails;
- a timestamp view and a time-range query;
- mark a whole reply thread read or unread, walking `responseTo` links up and down;
- a threaded view: one block per thread root, each sorted newest first.

Files:
- `emails.dfy` (module `Emails`): the `Email` value, the comparator and the order it
  imposes on the stored keys. It also holds the sequence operations the streams and the
  `TreeMap` perform (filter, ordered insert, first match by id).
- `sorting.dfy` (module `Sorting`): `List.sort` with a subtracting comparator, as a stable
  sort by an integer key.
- `reply_forest.dfy` (module `ReplyForest`): the reply structure. It covers the parent lookup
  `markUpstreamAs` does, depth, ancestors, transitive replies, threads, thread roots, and the
  iterations of the downward loops.
- `mailbox.dfy` (module `Mail`): the class `MailBox`.
  - `keys` is the `TreeMap`'s key set in iteration order; `flags` is the map to read flags.
  - `Valid()` says the keys are strictly ordered by the comparator and the flags cover
    exactly the keys.
  - Mutators are methods over these fields. Queries are functions reading them.
  - `markUpstreamAs` is a `while` loop. `markDownstreamAs` and `addDownstream` are loops
    over the keys that recurse on each reply. Their proofs use a depth measure.

The thread operations need three conditions on the stored emails:
- `UniqueIds`: no two stored emails share an id.
- `Acyclic`: following `responseTo` links from any stored email ends, within as many steps as there are emails, at an email whose parent is not stored (a root when `ParentClosed` also holds).
- `ParentClosed`: every reply's parent is stored. Only the upward walk needs this.

On some inputs that break these conditions the Java code fails. The upward `while` loop can
run forever, the downward recursions can overflow the stack, and the upward walk throws when
`getMsg` returns null. The model requires the conditions of
the whole mailbox rather than modelling those runs. That is stronger than the code needs: some
mailboxes that break a condition still run normally in Java, and the model says nothing about
them (see "## Left out").

## Model

| member | source | states |
|---|---|---|
| Emails.CompareIsTotalOrder | src/main/java/email/MailBox.java:14-19 | the comparator returns 0 exactly for equal (timestamp, id) keys, is antisymmetric and transitive, and puts e1 first exactly when it is newer or equally old with a larger id |
| Emails.FirstIndexWithId | src/main/java/email/MailBox.java:49 | findFirst over the key stream: the position of an email with the id, with no earlier one carrying it; None exactly when no stored email has the id |
| Emails.Filter | src/main/java/email/MailBox.java:154-156 | a stream filter keeps exactly the elements that pass the predicate and never grows |
| Emails.FilterCanonical | src/main/java/email/MailBox.java:154-156 | filtering the keys keeps them in comparator order |
| Emails.FilterKeepsAll | src/main/java/email/MailBox.java:60 | removeIf removes something exactly when some element fails the kept test, and otherwise leaves the sequence as it was |
| Emails.FilterDropsUniqueId | src/main/java/email/MailBox.java:60 | with unique ids, removing an id that is present removes exactly one email |
| Emails.Insert | src/main/java/email/MailBox.java:37 | put of a new key adds exactly that email to the stored keys |
| Emails.InsertCanonical | src/main/java/email/MailBox.java:34-37 | a key that containsKey does not find is put at a place that keeps the comparator order |
| Emails.CanonicalMultiplicity | src/main/java/email/MailBox.java:139 | keys in comparator order hold every email at most once |
| Emails.CanonicalCardinality | src/main/java/email/MailBox.java:72 | the number of stored keys equals the number of distinct stored emails |
| Sorting.SortBy | src/main/java/email/MailBox.java:157 | List.sort returns a permutation of its input in non-decreasing key order |
| Sorting.InsertBySorted | src/main/java/email/MailBox.java:157 | each insertion step of the sort keeps the sequence sorted |
| Sorting.SortBySeconds | src/main/java/email/MailBox.java:240 | sorting (root, thread) pairs by their threads' key orders the threads exactly as sorting the thread list does |
| Sorting.SortByFirsts | src/main/java/email/MailBox.java:240 | sorting the pairs keeps the same multiset of roots |
| ReplyForest.ParentOf | src/main/java/email/MailBox.java:182 | the email getMsg finds for a responseTo id is stored and carries that id; None exactly for a root or a reply whose parent id is not stored |
| ReplyForest.ParentDepth | src/main/java/email/MailBox.java:181-183 | each step of the upward walk goes one level up |
| ReplyForest.Ancestors | src/main/java/email/MailBox.java:180-185 | every email the upward walk visits is stored and higher than where the walk started |
| ReplyForest.ReplyParent | src/main/java/email/MailBox.java:189 | with unique ids, an email whose responseTo equals e's id has e as its parent |
| ReplyForest.DescendantsByReply | src/main/java/email/MailBox.java:187-194 | an email is a transitive reply of e exactly when it is, or descends from, a direct reply to e |
| ReplyForest.ReachedAll | src/main/java/email/MailBox.java:188-193 | after the loop over all keys, the direct replies' threads together are exactly e's transitive replies |
| ReplyForest.ReachedDisjoint | src/main/java/email/MailBox.java:253-258 | the thread of the next direct reply shares no email with what earlier iterations added, so addDownstream adds each email once |
| ReplyForest.SiblingsDisjoint | src/main/java/email/MailBox.java:253-258 | two different direct replies to e have disjoint threads |
| ReplyForest.RootOf | src/main/java/email/MailBox.java:180-185 | the email where the upward walk stops is stored, has no stored parent, and is the start or one of its ancestors |
| ReplyForest.RootOfAncestor | src/main/java/email/MailBox.java:180-185 | every ancestor of e leads up to the same root as e |
| ReplyForest.RootStep | src/main/java/email/MailBox.java:181-182 | in a parent-closed mailbox a non-root's parent is stored, one level up, with the same root |
| ReplyForest.WholeThreadMembers | src/main/java/email/MailBox.java:161-168 | the thread of e, in the sense of the documentation, holds exactly the stored emails with e's root |
| ReplyForest.LineageWithinWholeThread | src/main/java/email/MailBox.java:169-178 | everything markThreadAsRead reaches belongs to the email's thread |
| ReplyForest.LineageMissesSibling | src/main/java/email/MailBox.java:169-178 | on the three-email example root R (id 1), replies A (id 2) and B (id 3) to it, which is acyclic with unique ids: markThreadAsRead on A does not reach B, though both are in R's thread |
| Mail.OldestFirstSorted | src/main/java/email/MailBox.java:157 | sorting with e1.ts - e2.ts gives non-decreasing timestamps |
| Mail.NewestFirstSorted | src/main/java/email/MailBox.java:248 | sorting with e2.ts - e1.ts gives non-increasing timestamps |
| Mail.Updated | src/main/java/email/MailBox.java:183 | putting a flag on a set of stored emails keeps the key set, sets those flags and leaves every other flag as it was |
| Mail.WithoutId | src/main/java/email/MailBox.java:60 | removeIf on an id keeps exactly the entries with another id, with their flags |
| Mail.RemoveById | src/main/java/email/MailBox.java:60 | removeIf on an id reports a change exactly when the id is stored, keeps the order, keeps exactly the emails with other ids and leaves none with the id |
| Mail.WithoutAbsentId | src/main/java/email/MailBox.java:59-64 | deleting an id no stored email has leaves the flag map as it was |
| Mail.RemoveByIdCount | src/main/java/email/MailBox.java:60 | with unique ids, deleting a stored id removes exactly one entry from the map |
| Mail.CountUnread | src/main/java/email/MailBox.java:126 | the stream count of false flags is at most the number of keys |
| Mail.CountUnreadIsCardinality | src/main/java/email/MailBox.java:126 | that count equals the number of stored emails whose flag is false |
| Mail.UpstreamStep | src/main/java/email/MailBox.java:181-184 | one iteration of markUpstreamAs: getMsg finds the parent, which is one level up, and marking it keeps "marked plus what is still above equals all ancestors" |
| Mail.AppendStep | src/main/java/email/MailBox.java:254-256 | one iteration of addDownstream that meets a reply appends that reply's thread after what the list held, and the appended emails are exactly those reached so far |
| Mail.ThreadSplit | src/main/java/email/MailBox.java:245-247 | the reply followed by its transitive replies is exactly that reply's thread, after what the list already held |
| Mail.RootsStep | src/main/java/email/MailBox.java:235-236 | after one more key, the roots collected are the roots among the keys seen so far |
| ReplyForest.ThreadOfRoot | src/main/java/email/MailBox.java:244-250 | the thread getThread builds for a root holds exactly the stored emails whose upward walk ends at that root |
| ReplyForest.RootOfIsRoot | src/main/java/email/MailBox.java:181-184 | when every parent is stored, the upward walk ends at an email whose responseTo is the no-parent value |
| Mail.FlattenCount | src/main/java/email/MailBox.java:241 | flatMap over the blocks holds an email as often as the blocks that hold it, counted by their roots |
| Mail.ThreadedViewCount | src/main/java/email/MailBox.java:233-242 | concatenating one thread block per stored root yields each email whose walk ends at a root exactly once and nothing else, and every stored email once when all parents are stored |
| Mail.SortedThreadBlocks | src/main/java/email/MailBox.java:240 | sorting the threads by their first timestamp keeps every root once and every block a sorted thread, with blocks non-increasing by first timestamp |
| Mail.MailBox.constructor | src/main/java/email/MailBox.java:14-19 | a new mailbox is empty and valid |
| Mail.MailBox.AddMsg | src/main/java/email/MailBox.java:30-39 | adds exactly when msg is non-null and no stored key compares equal. The email is then stored once, unread, and the count grows by one; otherwise nothing changes |
| Mail.MailBox.GetMsg | src/main/java/email/MailBox.java:48-50 | None exactly when no stored email has the id; otherwise a stored email with the id that comes before every other one with it |
| Mail.MailBox.DelMsg | src/main/java/email/MailBox.java:59-64 | returns whether the id was stored, removes every email with the id and nothing else, and changes nothing on an absent id; with unique ids the count drops by one |
| Mail.MailBox.GetMsgCount | src/main/java/email/MailBox.java:71-73 | the number of entries in the map |
| Mail.MailBox.MarkRead | src/main/java/email/MailBox.java:81-88 | false and no change for an absent id; otherwise only the flag of getMsg's email becomes true, and isRead then returns true |
| Mail.MailBox.MarkUnread | src/main/java/email/MailBox.java:96-103 | false and no change for an absent id; otherwise only the flag of getMsg's email becomes false, and isRead then returns false |
| Mail.MailBox.IsRead | src/main/java/email/MailBox.java:112-118 | IllegalArgumentException exactly when no stored email has the id; otherwise the flag of getMsg's email |
| Mail.MailBox.GetUnreadMsgCount | src/main/java/email/MailBox.java:125-127 | the number of stored emails flagged unread, never above getMsgCount |
| Mail.MailBox.GetTimestampView | src/main/java/email/MailBox.java:138-140 | every stored email exactly once, newest first, equal timestamps by descending id |
| Mail.MailBox.GetMsgsInRange | src/main/java/email/MailBox.java:153-159 | exactly the stored emails with start <= timestamp <= end, each once, in non-decreasing timestamp order |
| Mail.MailBox.MarkUpstreamAs | src/main/java/email/MailBox.java:180-185 | puts the flag on exactly the ancestors of start and leaves every other flag as it was |
| Mail.MailBox.MarkDownstreamAs | src/main/java/email/MailBox.java:187-194 | puts the flag on exactly the transitive replies of e and leaves every other flag as it was |
| Mail.MailBox.MarkDownstreamStep | src/main/java/email/MailBox.java:189-192 | one iteration of the loop: a direct reply's thread gets the flag, any other key changes nothing |
| Mail.MailBox.MarkReplyThreadAs | src/main/java/email/MailBox.java:190-191 | a direct reply and its transitive replies get the flag, nothing else |
| Mail.MailBox.MarkThreadAsRead | src/main/java/email/MailBox.java:169-178 | false and no change for an absent id; otherwise exactly the email, its ancestors and its transitive replies become read, and the key set is unchanged |
| Mail.MailBox.MarkThreadAsUnread | src/main/java/email/MailBox.java:205-214 | false and no change for an absent id; otherwise exactly the email, its ancestors and its transitive replies become unread, and the key set is unchanged |
| Mail.MailBox.MarkWholeThreadAs | src/main/java/email/MailBox.java:161-168 | the documented behaviour: false and no change for an absent id; otherwise every email of the email's thread gets the flag, nothing else |
| Mail.MailBox.ClimbToRoot | src/main/java/email/MailBox.java:181-182 | the upward walk ends at a stored root, the root of the starting email |
| Mail.MailBox.AddDownstream | src/main/java/email/MailBox.java:252-259 | keeps what the list held and appends every transitive reply of e exactly once |
| Mail.MailBox.AddReplyThread | src/main/java/email/MailBox.java:255-256 | appends a direct reply followed by its transitive replies, each exactly once |
| Mail.MailBox.GetThread | src/main/java/email/MailBox.java:244-250 | exactly e and its transitive replies, each once, in non-increasing timestamp order |
| Mail.MailBox.GetThreadedView | src/main/java/email/MailBox.java:233-242 | the concatenation of one block per stored root. Each block holds exactly that root's thread, newest first, and the blocks are ordered by non-increasing first timestamp. The view holds each stored email once when its upward walk ends at a root, and otherwise not at all (a reply whose parent is not stored is dropped). With every parent stored, the view is a permutation of the stored emails |

## Left out

- Email ids are UUIDs in the source. Here they are integers compared by value, since only equality and `compareTo`'s total order are used.
- The `Email` class is not part of this model. An email is the value (id, timestamp, responseTo), with `NoParent` standing for `Email.NO_PARENT_ID`.
- The root test `getResponseTo() != Email.NO_PARENT_ID` compares references in the source. It is modelled as value equality, as the reply tests at lines 189 and 254 use `equals`.
- Timestamps are unbounded integers. The Java `int` overflow of the subtracting comparators (lines 18, 157, 240, 248) is not modelled; the order they intend is used.
- The thread operations require unique ids and no `responseTo` cycle anywhere in the mailbox, and the markers also require every stored reply's parent to be stored. These whole-mailbox conditions stand in for the runs that actually fail:
  - a cycle met by the upward `while` loop at line 181 makes it run forever;
  - a cycle met by the recursion at line 191 or 256 ends in a `StackOverflowError`;
  - a missing parent met by the upward walk throws a `NullPointerException` at line 183, rather than ending the walk quietly, and the model follows the code;
  - a shared id also sends the recursion into a loop, because the test at lines 189 and 254 matches ids with `equals` and a reply can carry its own id as its `responseTo`. On `[Email(5,20,NoParent), Email(5,10,ReplyTo(5))]`, `markThreadAsRead(5)` and `getThreadedView` recurse on the ts-10 email, which matches itself, until a `StackOverflowError`. That mailbox satisfies `Acyclic` and `ParentClosed`, because the upward walk follows `getMsg`'s first match; `UniqueIds` is what excludes it.
- Mail.MailBox.GetThreadedView: requires `UniqueIds` and `Acyclic` for the whole mailbox, which is stronger than the code needs. With unique ids, `addDownstream` starts only at roots and never reaches an email on a cycle. For example, on `[Email(3,30,ReplyTo(2)), Email(2,20,ReplyTo(3)), Email(1,10,NoParent)]` Java returns normally and leaves the cycle out, and the model says nothing about that mailbox.
- Mail.MailBox.MarkThreadAsRead: requires `UniqueIds`, `ParentClosed` and `Acyclic` for the whole mailbox, though Java fails only when the target's own upward chain meets a missing parent or a cycle, or its downward recursion meets a cycle or a reply that matches itself through a shared id. For example, `markThreadAsRead(1)` on `[Email(2,20,ReplyTo(9)), Email(1,10,NoParent)]` returns true in Java, and the model says nothing about that mailbox.
- Mail.MailBox.MarkThreadAsUnread: the same whole-mailbox simplification as MarkThreadAsRead, with the same example for `markThreadAsUnread(1)`.
- Mail.MailBox.MarkWholeThreadAs: the same whole-mailbox `UniqueIds`, `ParentClosed` and `Acyclic` requirement as the two thread markers.
- Mail.MailBox.GetMsgsInRange: does not require the documented `startTime >= 0` and `endTime >= startTime`, because the code does not check them. It also does not state the order among equal timestamps, which the documentation calls arbitrary.
- Mail.MailBox.GetThread: does not state the order among equal timestamps, which the documentation calls arbitrary.
- Mail.MailBox.GetThreadedView: does not state the order among threads whose first timestamps are equal, which the documentation calls arbitrary. The roots and blocks it names are ghost results, not part of what the source returns.
- Mail.MailBox.DelMsg: states the count drop of exactly one only for unique ids. `removeIf` removes every email with the id, so with duplicates the drop is larger.
- The `TreeMap`'s red-black tree, Java streams and collectors are not modelled. Storage is the ordered key sequence plus the flag map, and `List.sort`'s merge sort is modelled by a stable insertion sort with the same result.
- Concurrent modification and performance are not modelled.

## Findings

| source | as written | input that shows it | evidently intended | confidence | as-written member | corrected member |
|---|---|---|---|---|---|---|
| src/main/java/email/MailBox.java:169-178 | markThreadAsRead (and markThreadAsUnread, lines 205-214) flags only the email, its ancestors and its transitive replies | root R (id 1, ts 10), A (id 2, ts 20, reply to 1), B (id 3, ts 30, reply to 1); markThreadAsRead(2) flags A and R but leaves B unread | every message of the thread, as the documentation at lines 161-163 says: the root's thread, other replies to the ancestors included | not executed | ReplyForest.LineageMissesSibling | Mail.MailBox.MarkWholeThreadAs |

`Mail.MailBox.MarkThreadAsRead` and `Mail.MailBox.MarkThreadAsUnread` model the code as written. The corrected
operation, `Mail.MailBox.MarkWholeThreadAs`, climbs to the root and marks the root's thread.
`ReplyForest.WholeThreadMembers` shows that this is exactly the set of stored emails sharing the
root, and `ReplyForest.LineageWithinWholeThread` shows that the as-written set is contained in it.
