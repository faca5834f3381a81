/** `NotificationListView` of communications/views.py and the unread counter
    of communications/context_processors.py: a user's notifications, newest
    first, fifteen to a page, all marked read by the visit that lists them. */
module CommunicationsViews {
  import opened Wrappers
  import opened AccountsModels
  import opened CommunicationsModels
  import opened Store

  const PageSize := 15

  /** `get_queryset`: the rows of `user`, in table order. */
  function InboxOf(notes: seq<Notification>, user: UserId): (r: seq<Notification>)
    ensures forall i :: 0 <= i < |r| ==> r[i].user == user
    ensures forall n :: n in notes && n.user == user ==> n in r
    ensures multiset(r) <= multiset(notes)
  {
    if notes == [] then []
    else
      var rest := InboxOf(notes[1..], user);
      assert notes == [notes[0]] + notes[1..];
      if notes[0].user == user then [notes[0]] + rest else rest
  }

  /** The inbox holds each of the user's rows exactly as often as the table
      does, and no row of anyone else. */
  lemma {:induction false} InboxCounts(notes: seq<Notification>, user: UserId, n: Notification)
    ensures multiset(InboxOf(notes, user))[n] == if n.user == user then multiset(notes)[n] else 0
  {
    if notes != [] {
      InboxCounts(notes[1..], user, n);
      assert notes == [notes[0]] + notes[1..];
    }
  }

  /** No row is older than the one after it (the model's `-created_at`). */
  predicate NewestFirstOrder(s: seq<Notification>)
  {
    forall i, j :: 0 <= i < j < |s| ==> s[i].createdAt >= s[j].createdAt
  }

  /** `n` put before the first row of the newest-first `s` that is no newer. */
  function Insert(n: Notification, s: seq<Notification>): seq<Notification>
  {
    if s == [] || s[0].createdAt <= n.createdAt then [n] + s
    else [s[0]] + Insert(n, s[1..])
  }

  /** Inserting adds exactly the one row. */
  lemma {:induction false} InsertKeepsRows(n: Notification, s: seq<Notification>)
    ensures multiset(Insert(n, s)) == multiset(s) + multiset{n}
    ensures |Insert(n, s)| == |s| + 1
  {
    if !(s == [] || s[0].createdAt <= n.createdAt) {
      InsertKeepsRows(n, s[1..]);
      assert s == [s[0]] + s[1..];
    }
  }

  /** Inserting a row no newer than `bound` among rows no newer than `bound`
      gives rows no newer than `bound`. */
  lemma {:induction false} InsertBounded(n: Notification, s: seq<Notification>, bound: int)
    requires n.createdAt <= bound
    requires forall i :: 0 <= i < |s| ==> s[i].createdAt <= bound
    ensures forall i :: 0 <= i < |Insert(n, s)| ==> Insert(n, s)[i].createdAt <= bound
  {
    if !(s == [] || s[0].createdAt <= n.createdAt) {
      InsertBounded(n, s[1..], bound);
    }
  }

  /** Inserting into a newest-first sequence keeps it newest first. */
  lemma {:induction false} InsertKeepsOrder(n: Notification, s: seq<Notification>)
    requires NewestFirstOrder(s)
    ensures NewestFirstOrder(Insert(n, s))
  {
    if s == [] || s[0].createdAt <= n.createdAt {
      var r := [n] + s;
      forall i, j | 0 <= i < j < |r|
        ensures r[i].createdAt >= r[j].createdAt
      {
        if i == 0 {
          assert r[j] == s[j - 1];
        } else {
          assert r[i] == s[i - 1] && r[j] == s[j - 1];
        }
      }
    } else {
      var tail := s[1..];
      InsertKeepsOrder(n, tail);
      InsertBounded(n, tail, s[0].createdAt);
      var rest := Insert(n, tail);
      var r := [s[0]] + rest;
      forall i, j | 0 <= i < j < |r|
        ensures r[i].createdAt >= r[j].createdAt
      {
        assert r[j] == rest[j - 1];
        if i > 0 {
          assert r[i] == rest[i - 1];
        }
      }
    }
  }

  /** The rows sorted newest first (the order among rows of one instant is
      the table's). */
  function NewestFirst(s: seq<Notification>): seq<Notification>
  {
    if s == [] then [] else Insert(s[0], NewestFirst(s[1..]))
  }

  /** Sorting puts the rows newest first and keeps exactly the same rows. */
  lemma {:induction false} NewestFirstSpec(s: seq<Notification>)
    ensures NewestFirstOrder(NewestFirst(s))
    ensures multiset(NewestFirst(s)) == multiset(s)
    ensures |NewestFirst(s)| == |s|
  {
    if s != [] {
      var rest := NewestFirst(s[1..]);
      NewestFirstSpec(s[1..]);
      InsertKeepsRows(s[0], rest);
      InsertKeepsOrder(s[0], rest);
      assert NewestFirst(s) == Insert(s[0], rest);
      assert s == [s[0]] + s[1..];
      assert multiset(s) == multiset{s[0]} + multiset(s[1..]);
    }
  }

  /** The listing the view pages through. */
  function Listing(notes: seq<Notification>, user: UserId): seq<Notification>
  {
    NewestFirst(InboxOf(notes, user))
  }

  /** The number of pages: one even when there is nothing to show. */
  function PageCount(count: nat): (r: nat)
    ensures r >= 1
    ensures count == 0 ==> r == 1
    ensures count > 0 ==> (r - 1) * PageSize < count <= r * PageSize
  {
    if count == 0 then 1 else (count + PageSize - 1) / PageSize
  }

  /** Page `page` of the listing, counted from 1, or None for a page number
      that lies outside it (the view answers "not found"). */
  function Page(notes: seq<Notification>, user: UserId, page: int): Option<seq<Notification>>
  {
    var all := Listing(notes, user);
    if 1 <= page <= PageCount(|all|) then
      var lo := (page - 1) * PageSize;
      var hi := if page * PageSize < |all| then page * PageSize else |all|;
      Some(all[lo..hi])
    else None
  }

  /** The listing holds exactly the rows of the user's inbox. */
  lemma ListingRows(notes: seq<Notification>, user: UserId)
    ensures |Listing(notes, user)| == |InboxOf(notes, user)|
    ensures NewestFirstOrder(Listing(notes, user))
    ensures forall x :: x in Listing(notes, user) <==> x in notes && x.user == user
  {
    var inbox := InboxOf(notes, user);
    var all := Listing(notes, user);
    NewestFirstSpec(inbox);
    forall x
      ensures x in all <==> x in notes && x.user == user
    {
      assert x in all <==> x in multiset(all);
      assert x in inbox <==> x in multiset(inbox);
      if x in inbox {
        InboxMember(notes, user, x);
      }
    }
  }

  /** A slice of a newest-first sequence is newest first and holds only its rows. */
  lemma SliceKeepsOrder(s: seq<Notification>, lo: nat, hi: nat)
    requires NewestFirstOrder(s) && lo <= hi <= |s|
    ensures NewestFirstOrder(s[lo..hi])
    ensures forall x :: x in s[lo..hi] ==> x in s
  {
    var p := s[lo..hi];
    forall i, j | 0 <= i < j < |p|
      ensures p[i].createdAt >= p[j].createdAt
    {
      assert p[i] == s[lo + i] && p[j] == s[lo + j];
    }
  }

  /** A page holds at most fifteen rows, all of them the user's own, newest
      first; and the first page always exists, even for an empty inbox. */
  lemma PageRows(notes: seq<Notification>, user: UserId, page: int)
    ensures Page(notes, user, 1).Some?
    ensures Page(notes, user, page).Some? ==>
      var p := Page(notes, user, page).value;
      && |p| <= PageSize
      && NewestFirstOrder(p)
      && (forall n :: n in p ==> n.user == user && n in notes)
  {
    ListingRows(notes, user);
    var all := Listing(notes, user);
    if 1 <= page <= PageCount(|all|) {
      var lo := (page - 1) * PageSize;
      var hi := if page * PageSize < |all| then page * PageSize else |all|;
      assert Page(notes, user, page) == Some(all[lo..hi]);
      SliceKeepsOrder(all, lo, hi);
    }
  }

  /** Row `i` of a listing of `count` rows lies on page `i / 15 + 1`, which exists. */
  lemma PageOfRow(i: nat, count: nat)
    requires i < count
    ensures 1 <= i / PageSize + 1 <= PageCount(count)
    ensures (i / PageSize) * PageSize <= i < (i / PageSize + 1) * PageSize
  {
    var q := i / PageSize;
    assert i == q * PageSize + i % PageSize;
    assert (i + PageSize) / PageSize == q + 1;
    assert i + PageSize <= count + PageSize - 1;
  }

  /** Paging loses nothing: every notification of the user is on some page. */
  lemma PagesCoverInbox(notes: seq<Notification>, user: UserId, n: Notification)
    requires n in notes && n.user == user
    ensures exists k ::
      1 <= k <= PageCount(|InboxOf(notes, user)|) && Page(notes, user, k).Some? && n in Page(notes, user, k).value
  {
    ListingRows(notes, user);
    var all := Listing(notes, user);
    var i :| 0 <= i < |all| && all[i] == n;
    PageOfRow(i, |all|);
    var k := i / PageSize + 1;
    var lo := (k - 1) * PageSize;
    var hi := if k * PageSize < |all| then k * PageSize else |all|;
    assert lo <= i < hi;
    assert Page(notes, user, k) == Some(all[lo..hi]);
    assert n == all[lo..hi][i - lo];
  }

  /** A row of the inbox is a row of the table. */
  lemma {:induction false} InboxMember(notes: seq<Notification>, user: UserId, n: Notification)
    requires n in InboxOf(notes, user)
    ensures n in notes
  {
    assert n in multiset(InboxOf(notes, user));
  }

  /** `get`'s bulk update: every row of `user` ends up read; nothing else changes. */
  function MarkAllRead(notes: seq<Notification>, user: UserId): (r: seq<Notification>)
    ensures |r| == |notes|
    ensures forall i :: 0 <= i < |notes| && notes[i].user == user ==> r[i] == notes[i].(isRead := true)
    ensures forall i :: 0 <= i < |notes| && notes[i].user != user ==> r[i] == notes[i]
  {
    seq(|notes|, i requires 0 <= i < |notes| => if notes[i].user == user then notes[i].(isRead := true) else notes[i])
  }

  /** The context processor's count: the user's rows still unread. */
  function UnreadCount(notes: seq<Notification>, user: UserId): nat
  {
    if notes == [] then 0
    else UnreadCount(notes[1..], user) + (if notes[0].user == user && !notes[0].isRead then 1 else 0)
  }

  /** After the visit the user has nothing unread, every other user's count
      is as before, and a second visit changes nothing. */
  lemma {:induction false} MarkAllReadSpec(notes: seq<Notification>, user: UserId, other: UserId)
    requires other != user
    ensures UnreadCount(MarkAllRead(notes, user), user) == 0
    ensures UnreadCount(MarkAllRead(notes, user), other) == UnreadCount(notes, other)
    ensures MarkAllRead(MarkAllRead(notes, user), user) == MarkAllRead(notes, user)
  {
    if notes != [] {
      MarkAllReadSpec(notes[1..], user, other);
      assert MarkAllRead(notes, user)[1..] == MarkAllRead(notes[1..], user);
    }
  }

  /** Every row the visit lists is read. */
  lemma ListedRowsRead(notes: seq<Notification>, user: UserId, page: int)
    requires Page(MarkAllRead(notes, user), user, page).Some?
    ensures forall n :: n in Page(MarkAllRead(notes, user), user, page).value ==> n.isRead
  {
    var marked := MarkAllRead(notes, user);
    PageRows(marked, user, page);
    forall n | n in Page(marked, user, page).value ensures n.isRead {
      var i :| 0 <= i < |marked| && marked[i] == n;
    }
  }

  /** The visit of `user` to page `page`: the update is committed before the
      page is read, and stays even when the page number is out of range. */
  method ViewNotifications(db: Database, user: UserId, page: int) returns (shown: Option<seq<Notification>>)
    requires db.Valid()
    modifies db
    ensures db.Snapshot() == old(db.Snapshot()).(notifications := MarkAllRead(old(db.notifications), user))
    ensures shown == Page(db.notifications, user, page)
    ensures db.Valid()
  {
    db.notifications := MarkAllRead(db.notifications, user);
    shown := Page(db.notifications, user, page);
  }
}
