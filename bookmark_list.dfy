/** The bookmark list component: a local copy of the user's bookmarks, seeded
    from the server snapshot and patched by the realtime change feed. */
module BookmarkList {
  import opened Bookmarks

  /** A change event as the component's handler distinguishes it. An INSERT
      carries the new row, a DELETE the identifier of the old row; every other
      event type (UPDATE included) is `Other`. */
  datatype Event = Insert(row: Bookmark) | Delete(id: string) | Other

  /** What the component renders: the empty-state message, or one row per
      bookmark, keyed by its identifier. */
  datatype Row = Row(key: string, title: string, url: string)
  datatype View = EmptyState(message: string) | Rows(rows: seq<Row>)

  const EmptyMessage: string := "No bookmarks yet. Add your first one above!"

  /** The INSERT updater: the new row goes in front of the current list. */
  function Prepend(b: Bookmark, s: seq<Bookmark>): (r: seq<Bookmark>)
    ensures |r| == |s| + 1
    ensures r[0] == b && r[1..] == s
    ensures CountId(r, b.id) == CountId(s, b.id) + 1
  {
    var r := [b] + s;
    assert r[1..] == s;
    r
  }

  /** The DELETE updater: keep exactly the rows whose identifier differs from `d`. */
  function RemoveId(s: seq<Bookmark>, d: string): (r: seq<Bookmark>)
    ensures |r| <= |s|
    ensures forall i :: 0 <= i < |r| ==> r[i].id != d
    ensures forall x :: x in r <==> x in s && x.id != d
  {
    if s == [] then []
    else if s[0].id == d then RemoveId(s[1..], d)
    else [s[0]] + RemoveId(s[1..], d)
  }

  /** The realtime handler's effect on the list for one event. */
  function Apply(s: seq<Bookmark>, e: Event): (r: seq<Bookmark>)
    ensures e.Insert? ==> |r| == |s| + 1 && r[0] == e.row && r[1..] == s
    ensures e.Delete? ==> forall x :: x in r <==> x in s && x.id != e.id
    ensures e.Other? ==> r == s
  {
    match e
    case Insert(b) => Prepend(b, s)
    case Delete(d) => RemoveId(s, d)
    case Other => s
  }

  /** The list after a sequence of events, applied one at a time in arrival order. */
  function ApplyAll(s: seq<Bookmark>, events: seq<Event>): (r: seq<Bookmark>)
    // no row appears from nowhere: it was in the snapshot or some INSERT carried it
    ensures forall x :: x in r ==> x in s || exists k :: 0 <= k < |events| && events[k] == Insert(x)
    // events that are neither INSERT nor DELETE leave the list alone
    ensures (forall k :: 0 <= k < |events| ==> events[k].Other?) ==> r == s
    // without an INSERT the list can only shrink
    ensures (forall k :: 0 <= k < |events| ==> !events[k].Insert?) ==> |r| <= |s|
    decreases |events|
  {
    if events == [] then s
    else
      var t := Apply(s, events[0]);
      var r := ApplyAll(t, events[1..]);
      assert forall k :: 0 <= k < |events| - 1 ==> events[1..][k] == events[k + 1];
      r
  }

  /** The component's rendering: the empty-state message exactly when the list
      is empty, otherwise one row per bookmark, in list order. */
  function Render(s: seq<Bookmark>): (v: View)
    ensures v.EmptyState? <==> |s| == 0
    ensures v.EmptyState? ==> v.message == EmptyMessage
    ensures v.Rows? ==> |v.rows| == |s|
    ensures v.Rows? ==> forall i :: 0 <= i < |s| ==> v.rows[i] == Row(s[i].id, s[i].title, s[i].url)
  {
    if |s| == 0 then EmptyState(EmptyMessage)
    else Rows(seq(|s|, i requires 0 <= i < |s| => Row(s[i].id, s[i].title, s[i].url)))
  }

  // ---------------------------------------------------------------------------
  // Properties of the DELETE updater

  /** Exact removal: a row with identifier `d` is dropped with all its copies,
      and every other row keeps its multiplicity. */
  lemma {:induction false} RemoveIdMultiplicity(s: seq<Bookmark>, d: string, x: Bookmark)
    ensures multiset(RemoveId(s, d))[x] == if x.id == d then 0 else multiset(s)[x]
  {
    if s != [] {
      RemoveIdMultiplicity(s[1..], d, x);
      assert s == [s[0]] + s[1..];
      assert multiset(s) == multiset([s[0]]) + multiset(s[1..]);
      if s[0].id != d {
        assert multiset(RemoveId(s, d)) == multiset([s[0]]) + multiset(RemoveId(s[1..], d));
      }
    }
  }

  /** The DELETE updater shortens the list by the number of rows carrying `d`. */
  lemma {:induction false} RemoveIdLength(s: seq<Bookmark>, d: string)
    ensures |RemoveId(s, d)| == |s| - CountId(s, d)
  {
    if s != [] {
      RemoveIdLength(s[1..], d);
    }
  }

  /** Order preservation: the result is a subsequence of the input. */
  lemma {:induction false} RemoveIdSubsequence(s: seq<Bookmark>, d: string)
    ensures SubsequenceOf(RemoveId(s, d), s)
  {
    if s != [] {
      RemoveIdSubsequence(s[1..], d);
      var r := RemoveId(s, d);
      if s[0].id != d {
        assert r[0] == s[0] && r[1..] == RemoveId(s[1..], d);
      } else if r != [] {
        assert SubsequenceOf(r, s[1..]);
      }
    }
  }

  /** Order preservation, compositionally: filtering a concatenation filters
      each part and keeps the parts in order. */
  lemma {:induction false} RemoveIdConcat(a: seq<Bookmark>, b: seq<Bookmark>, d: string)
    ensures RemoveId(a + b, d) == RemoveId(a, d) + RemoveId(b, d)
  {
    if a == [] {
      assert a + b == b;
    } else {
      assert (a + b)[0] == a[0];
      assert (a + b)[1..] == a[1..] + b;
      RemoveIdConcat(a[1..], b, d);
    }
  }

  /** DELETE of an identifier no row carries leaves the list unchanged, and
      only such a DELETE does. */
  lemma {:induction false} RemoveIdAbsent(s: seq<Bookmark>, d: string)
    ensures RemoveId(s, d) == s <==> CountId(s, d) == 0
  {
    RemoveIdLength(s, d);
    if s != [] && CountId(s, d) == 0 {
      RemoveIdAbsent(s[1..], d);
    }
  }

  /** Applying the same DELETE twice equals applying it once. */
  lemma RemoveIdIdempotent(s: seq<Bookmark>, d: string)
    ensures RemoveId(RemoveId(s, d), d) == RemoveId(s, d)
  {
    RemoveIdAbsent(RemoveId(s, d), d);
  }

  /** DELETE events for two identifiers may arrive in either order. */
  lemma {:induction false} RemoveIdCommutes(s: seq<Bookmark>, d: string, e: string)
    ensures RemoveId(RemoveId(s, d), e) == RemoveId(RemoveId(s, e), d)
  {
    if s != [] {
      RemoveIdCommutes(s[1..], d, e);
      assert RemoveId([s[0]], d) == if s[0].id == d then [] else [s[0]];
      assert RemoveId([s[0]], e) == if s[0].id == e then [] else [s[0]];
      calc {
        RemoveId(RemoveId(s, d), e);
        { assert s == [s[0]] + s[1..]; RemoveIdConcat([s[0]], s[1..], d); }
        RemoveId(RemoveId([s[0]], d) + RemoveId(s[1..], d), e);
        { RemoveIdConcat(RemoveId([s[0]], d), RemoveId(s[1..], d), e); }
        RemoveId(RemoveId([s[0]], d), e) + RemoveId(RemoveId(s[1..], d), e);
        RemoveId(RemoveId([s[0]], e), d) + RemoveId(RemoveId(s[1..], e), d);
        { RemoveIdConcat(RemoveId([s[0]], e), RemoveId(s[1..], e), d); }
        RemoveId(RemoveId([s[0]], e) + RemoveId(s[1..], e), d);
        { assert s == [s[0]] + s[1..]; RemoveIdConcat([s[0]], s[1..], e); }
        RemoveId(RemoveId(s, e), d);
      }
    }
  }

  // ---------------------------------------------------------------------------
  // Properties of the event handler

  /** INSERT does not de-duplicate: a row whose identifier is already present
      appears twice afterwards. */
  lemma InsertKeepsDuplicates(s: seq<Bookmark>, b: Bookmark)
    requires exists i :: 0 <= i < |s| && s[i].id == b.id
    ensures CountId(Apply(s, Insert(b)), b.id) >= 2
  {
  }

  /** The echo of a freshly inserted row's deletion removes it together with
      every older row of the same identifier, and nothing else. */
  lemma InsertThenDelete(s: seq<Bookmark>, b: Bookmark)
    ensures ApplyAll(s, [Insert(b), Delete(b.id)]) == RemoveId(s, b.id)
  {
    var t := Apply(s, Insert(b));
    assert t == [b] + s;
    assert t[1..] == s;
    assert [Insert(b), Delete(b.id)][1..] == [Delete(b.id)];
    assert ApplyAll(t, [Delete(b.id)]) == Apply(t, Delete(b.id));
  }

  /** Processing two batches of events one after the other is processing
      their concatenation. */
  lemma {:induction false} ApplyAllConcat(s: seq<Bookmark>, e1: seq<Event>, e2: seq<Event>)
    ensures ApplyAll(s, e1 + e2) == ApplyAll(ApplyAll(s, e1), e2)
    decreases |e1|
  {
    if e1 == [] {
      assert e1 + e2 == e2;
    } else {
      assert (e1 + e2)[0] == e1[0];
      assert (e1 + e2)[1..] == e1[1..] + e2;
      ApplyAllConcat(Apply(s, e1[0]), e1[1..], e2);
    }
  }

  /** Once no row carries `d`, it stays that way until an INSERT of a row with
      identifier `d` arrives. */
  lemma {:induction false} AbsentStaysAbsent(s: seq<Bookmark>, d: string, events: seq<Event>)
    requires CountId(s, d) == 0
    requires forall k :: 0 <= k < |events| ==> !(events[k].Insert? && events[k].row.id == d)
    ensures CountId(ApplyAll(s, events), d) == 0
    decreases |events|
  {
    if events != [] {
      var t := Apply(s, events[0]);
      assert CountId(t, d) == 0 by {
        match events[0]
        case Insert(b) =>
          assert b.id != d;
          assert forall i :: 0 < i < |t| ==> t[i] == s[i - 1];
        case Delete(e) =>
          forall i | 0 <= i < |t| ensures t[i].id != d {
            assert t[i] in t;
          }
        case Other =>
      }
      AbsentStaysAbsent(t, d, events[1..]);
    }
  }

  /** After a DELETE for `d`, no row carries `d` until an INSERT brings one back. */
  lemma DeleteIsFinal(s: seq<Bookmark>, d: string, later: seq<Event>)
    requires forall k :: 0 <= k < |later| ==> !(later[k].Insert? && later[k].row.id == d)
    ensures CountId(ApplyAll(s, [Delete(d)] + later), d) == 0
  {
    ApplyAllConcat(s, [Delete(d)], later);
    var t := Apply(s, Delete(d));
    assert ApplyAll(s, [Delete(d)]) == ApplyAll(t, []);
    AbsentStaysAbsent(t, d, later);
  }

  // ---------------------------------------------------------------------------
  // The component's state

  /** The mounted component: its `bookmarks` state, and the delete requests
      its delete buttons have sent to the hosted table. */
  class Reconciler {
    var bookmarks: seq<Bookmark>
    var deleteRequests: seq<string>

    /** The state is seeded from the server snapshot. */
    constructor (initialBookmarks: seq<Bookmark>)
      ensures bookmarks == initialBookmarks
      ensures deleteRequests == []
    {
      bookmarks := initialBookmarks;
      deleteRequests := [];
    }

    /** The realtime handler: one event replaces the state by its update. */
    method OnChange(e: Event)
      modifies this`bookmarks
      ensures bookmarks == Apply(old(bookmarks), e)
      ensures deleteRequests == old(deleteRequests)
    {
      match e
      case Insert(b) =>
        bookmarks := [b] + bookmarks;
      case Delete(d) =>
        bookmarks := RemoveId(bookmarks, d);
      case Other =>
    }

    /** The delete button: one remove-by-id request, and no local change; the
        row disappears only when the DELETE event comes back. */
    method HandleDelete(id: string)
      modifies this`deleteRequests
      ensures deleteRequests == old(deleteRequests) + [id]
      ensures bookmarks == old(bookmarks)
    {
      deleteRequests := deleteRequests + [id];
    }

    /** What the component shows for its current state. */
    function CurrentView(): (v: View)
      reads this
      ensures v.EmptyState? <==> bookmarks == []
    {
      Render(bookmarks)
    }
  }
}
