/** Keyset pagination over a table that changes between pages. A row is known by its sort key, the
    creation instant and the unique id; each page sees the keys of the rows that match the filter at
    that moment. A cursor is its decoded key and the filter it was issued for. */
module KeysetWalk {
  import opened Prelude

  datatype Key = Key(created: int, id: nat)

  datatype Order = CreatedAscending | CreatedDescending

  datatype Cursor<F> = Cursor(key: Key, filter: F)

  datatype Page<F> = InvalidCursor | Page(items: seq<Key>, next: Option<Cursor<F>>)

  predicate Smaller(a: Key, b: Key) {
    a.created < b.created || (a.created == b.created && a.id < b.id)
  }

  // a comes before b in the listing.
  predicate Before(o: Order, a: Key, b: Key) {
    if o.CreatedAscending? then Smaller(a, b) else Smaller(b, a)
  }

  predicate Past(o: Order, after: Option<Key>, k: Key) {
    after.None? || Before(o, after.value, k)
  }

  // The keys after the cursor position.
  function Rest(live: set<Key>, o: Order, after: Option<Key>): set<Key> {
    set k | k in live && Past(o, after, k)
  }

  ghost predicate Ordered(o: Order, ks: seq<Key>) {
    forall i, j :: 0 <= i < j < |ks| ==> Before(o, ks[i], ks[j])
  }

  lemma {:induction false} FirstExists(o: Order, s: set<Key>)
    requires s != {}
    ensures exists k :: k in s && forall x :: x in s && x != k ==> Before(o, k, x)
    decreases |s|
  {
    var x :| x in s;
    var rest := s - {x};
    if rest != {} {
      FirstExists(o, rest);
      var k :| k in rest && forall y :: y in rest && y != k ==> Before(o, k, y);
      if Before(o, k, x) {
        assert forall y :: y in s && y != k ==> Before(o, k, y);
      } else {
        forall y | y in s && y != x ensures Before(o, x, y) {
          assert y in rest;
        }
      }
    } else {
      assert s == {x};
    }
  }

  // ORDER BY.
  function Sorted(o: Order, s: set<Key>): (ks: seq<Key>)
    ensures Ordered(o, ks) && |ks| == |s| && forall k :: k in ks <==> k in s
    decreases |s|
  {
    if s == {} then []
    else
      FirstExists(o, s);
      var k :| k in s && forall x :: x in s && x != k ==> Before(o, k, x);
      [k] + Sorted(o, s - {k})
  }

  // The listing goes by creation instant, up or down as asked, and by id in the same direction.
  predicate Listed(o: Order, a: Key, b: Key) {
    match o
    case CreatedAscending => a.created <= b.created && (a.created == b.created ==> a.id < b.id)
    case CreatedDescending => a.created >= b.created && (a.created == b.created ==> a.id > b.id)
  }

  // A page lists, in order, rows after the cursor, and every such row that is not on it comes later and
  // only when the page is full.
  ghost predicate PageMeans(live: set<Key>, o: Order, limit: nat, after: Option<Key>, items: seq<Key>, more: bool) {
    && |items| <= limit
    && (forall i, j :: 0 <= i < j < |items| ==> Listed(o, items[i], items[j]))
    && (forall k :: k in items ==> k in live && (after.None? || Listed(o, after.value, k)))
    && (forall k :: k in live && (after.None? || Listed(o, after.value, k)) && k !in items ==>
          more && |items| == limit && forall i :: 0 <= i < |items| ==> Listed(o, items[i], k))
    && (more ==> exists k :: k in live && (after.None? || Listed(o, after.value, k)) && k !in items)
  }

  lemma ListedIsBefore(o: Order)
    ensures forall a, b :: Listed(o, a, b) <==> Before(o, a, b)
  {
  }

  // A row left out of a page comes after all of its rows.
  lemma LeftOutIsLater(live: set<Key>, o: Order, limit: nat, after: Option<Key>, k: Key)
    requires 1 <= limit && k in live && Past(o, after, k) && k !in PageOf(live, o, limit, after).0
    ensures PageOf(live, o, limit, after).1.Some?
    ensures forall x :: x in PageOf(live, o, limit, after).0 ==> Before(o, x, k)
  {
    var matching := Sorted(o, Rest(live, o, after));
    assert k in matching;
    var i :| 0 <= i < |matching| && matching[i] == k;
    var items := PageOf(live, o, limit, after).0;
    assert forall j :: 0 <= j < |items| ==> items[j] == matching[j] && items[j] in items;
  }

  lemma PageIsMeant(live: set<Key>, o: Order, limit: nat, after: Option<Key>)
    requires 1 <= limit
    ensures var (items, next) := PageOf(live, o, limit, after); PageMeans(live, o, limit, after, items, next.Some?)
  {
    ListedIsBefore(o);
    PageFacts(live, o, limit, after);
    var matching := Sorted(o, Rest(live, o, after));
    var (items, next) := PageOf(live, o, limit, after);
    forall k | k in live && Past(o, after, k) && k !in items
      ensures next.Some? && forall i :: 0 <= i < |items| ==> Listed(o, items[i], k)
    {
      LeftOutIsLater(live, o, limit, after, k);
    }
    if next.Some? {
      var k := matching[limit];
      assert k in matching && k !in items;
    }
  }

  // One page: fetch one row more than asked for, to know whether there are more.
  method ListPage<F(==)>(live: set<Key>, o: Order, filter: F, limit: nat, cursor: Option<Cursor<F>>)
    returns (page: Page<F>)
    requires 1 <= limit
    ensures page.InvalidCursor? <==> cursor.Some? && cursor.value.filter != filter
    ensures !page.InvalidCursor? ==>
              var after := if cursor.None? then None else Some(cursor.value.key);
              && page.items == PageOf(live, o, limit, after).0
              && page.next == (match PageOf(live, o, limit, after).1
                               case None => None
                               case Some(k) => Some(Cursor(k, filter)))
    ensures page.Page? ==>
              && PageMeans(live, o, limit, if cursor.None? then None else Some(cursor.value.key), page.items,
                           page.next.Some?)
              && (page.next.Some? ==>
                    page.next.value.filter == filter && page.next.value.key == page.items[|page.items| - 1])
  {
    if cursor.Some? && cursor.value.filter != filter {
      return InvalidCursor;
    }
    var after := if cursor.None? then None else Some(cursor.value.key);
    var matching := Sorted(o, Rest(live, o, after));
    var rows := FirstRows(matching, limit + 1);
    var items := FirstRows(rows, limit);
    var next: Option<Cursor<F>> := None;
    if |rows| > limit && items != [] {
      next := Some(Cursor(items[|items| - 1], filter));
    }
    page := Page(items, next);
    assert items == PageOf(live, o, limit, after).0 && (next.Some? <==> PageOf(live, o, limit, after).1.Some?);
    PageIsMeant(live, o, limit, after);
  }

  function FirstRows(rows: seq<Key>, n: nat): seq<Key> {
    if |rows| <= n then rows else rows[..n]
  }

  function PageOf(live: set<Key>, o: Order, limit: nat, after: Option<Key>): (seq<Key>, Option<Key>)
    requires 1 <= limit
  {
    var matching := Sorted(o, Rest(live, o, after));
    if |matching| > limit then (matching[..limit], Some(matching[limit - 1])) else (matching, None)
  }

  // A page is an ordered run of the matching rows right after the cursor: it leaves none out up to its
  // last row, and if it says that there are no more, none at all. A page with a successor is full.
  lemma PageFacts(live: set<Key>, o: Order, limit: nat, after: Option<Key>)
    requires 1 <= limit
    ensures var (items, next) := PageOf(live, o, limit, after);
            && Ordered(o, items)
            && (forall k :: k in items ==> k in live && Past(o, after, k))
            && (forall k :: k in live && Past(o, after, k) && (next.None? || !Before(o, next.value, k)) ==> k in items)
            && (next.Some? ==> |items| == limit && next.value == items[limit - 1])
  {
    var matching := Sorted(o, Rest(live, o, after));
    var (items, next) := PageOf(live, o, limit, after);
    assert forall k :: k in items ==> k in matching;
    forall k | k in live && Past(o, after, k) && (next.None? || !Before(o, next.value, k))
      ensures k in items
    {
      assert k in matching;
      var i :| 0 <= i < |matching| && matching[i] == k;
      assert next.Some? ==> i < limit && items[i] == k;
    }
  }

  // Following `next` from one page to the next; page i sees the table as lives[i]. The second result
  // tells whether the walk reached a page without a successor.
  function Walk(lives: seq<set<Key>>, o: Order, limit: nat, after: Option<Key>): (seq<Key>, bool)
    requires 1 <= limit
    decreases |lives|
  {
    if lives == [] then ([], false)
    else
      var (items, next) := PageOf(lives[0], o, limit, after);
      if next.None? then (items, true)
      else
        var (rest, done) := Walk(lives[1..], o, limit, next);
        (items + rest, done)
  }

  // However the table changes between the pages, a walk returns no row twice and keeps the order,
  // returns only rows that matched when their page was read, and, once it ends, has returned every
  // row that was there and matched throughout.
  lemma {:induction false} WalkIsExact(lives: seq<set<Key>>, o: Order, limit: nat, after: Option<Key>)
    requires 1 <= limit
    ensures var (out, done) := Walk(lives, o, limit, after);
            && Ordered(o, out)
            && (forall k :: k in out ==> Past(o, after, k) && exists i :: 0 <= i < |lives| && k in lives[i])
            && (done ==> forall k :: Past(o, after, k) && (forall i :: 0 <= i < |lives| ==> k in lives[i]) ==> k in out)
    decreases |lives|
  {
    if lives != [] {
      PageFacts(lives[0], o, limit, after);
      var (items, next) := PageOf(lives[0], o, limit, after);
      if next.Some? {
        WalkIsExact(lives[1..], o, limit, next);
        var (rest, done) := Walk(lives[1..], o, limit, next);
        ConcatOrdered(o, items, rest);
        forall k | k in rest
          ensures Past(o, after, k) && exists i :: 0 <= i < |lives| && k in lives[i]
        {
          assert next.value in items;
          var i :| 0 <= i < |lives[1..]| && k in lives[1..][i];
          assert k in lives[i + 1];
        }
        forall k | done && Past(o, after, k) && forall i :: 0 <= i < |lives| ==> k in lives[i]
          ensures k in items + rest
        {
          if Before(o, next.value, k) {
            assert forall i :: 0 <= i < |lives[1..]| ==> lives[1..][i] == lives[i + 1];
          }
        }
      }
    }
  }

  lemma ConcatOrdered(o: Order, a: seq<Key>, b: seq<Key>)
    requires Ordered(o, a) && Ordered(o, b) && a != [] && forall k :: k in b ==> Before(o, a[|a| - 1], k)
    ensures Ordered(o, a + b)
  {
    forall i, j | 0 <= i < j < |a + b|
      ensures Before(o, (a + b)[i], (a + b)[j])
    {
      if i < |a| <= j {
        assert b[j - |a|] in b;
        assert i == |a| - 1 || Before(o, a[i], a[|a| - 1]);
      }
    }
  }

  function FirstOf(ks: seq<Key>): Key {
    if ks == [] then Key(0, 0) else ks[0]
  }

  lemma {:induction false} OrderedUnique(o: Order, a: seq<Key>, b: seq<Key>)
    requires Ordered(o, a) && Ordered(o, b) && forall k :: k in a <==> k in b
    ensures a == b
    decreases |a|
  {
    if a != [] {
      assert a[0] in b;
      assert b[0] in a;
      assert a[0] == b[0];
      forall k ensures k in a[1..] <==> k in b[1..] {
        assert k in a <==> k == a[0] || k in a[1..];
        assert k in b <==> k == b[0] || k in b[1..];
      }
      OrderedUnique(o, a[1..], b[1..]);
    } else {
      assert FirstOf(b) in b <==> b != [];
    }
  }

  function Unchanged(live: set<Key>, n: nat): seq<set<Key>> {
    seq(n, i => live)
  }

  lemma OneMorePage(n: nat, limit: nat)
    requires n >= 1
    ensures n * limit == (n - 1) * limit + limit >= limit
  {
  }

  lemma UnchangedStep(live: set<Key>, o: Order, limit: nat, after: Option<Key>, n: nat)
    requires 1 <= limit && n >= 1
    ensures var next := PageOf(live, o, limit, after).1;
            && (next.None? <==> |Rest(live, o, after)| <= limit)
            && Walk(Unchanged(live, n), o, limit, after).1
               == if next.None? then true else Walk(Unchanged(live, n - 1), o, limit, next).1
  {
    assert Unchanged(live, n)[1..] == Unchanged(live, n - 1);
  }

  // On a table that does not change, n pages end the walk if and only if they have room for all rows;
  // even an empty listing takes one page.
  lemma {:induction false} FixedTablePages(live: set<Key>, o: Order, limit: nat, after: Option<Key>, n: nat)
    requires 1 <= limit
    ensures Walk(Unchanged(live, n), o, limit, after).1 <==> n >= 1 && |Rest(live, o, after)| <= n * limit
    decreases n
  {
    if n > 0 {
      OneMorePage(n, limit);
      UnchangedStep(live, o, limit, after, n);
      if |Rest(live, o, after)| > limit {
        NextPages(live, o, limit, after, n);
      }
    }
  }

  lemma {:induction false} NextPages(live: set<Key>, o: Order, limit: nat, after: Option<Key>, n: nat)
    requires 1 <= limit && n >= 1 && PageOf(live, o, limit, after).1.Some?
    ensures Walk(Unchanged(live, n - 1), o, limit, PageOf(live, o, limit, after).1).1
            <==> n >= 2 && |Rest(live, o, after)| - limit <= (n - 1) * limit
    decreases n, 0
  {
    FixedTablePages(live, o, limit, PageOf(live, o, limit, after).1, n - 1);
    PageConsumes(live, o, limit, after);
  }

  // And then it has returned the whole sorted list.
  lemma FixedTableWalk(live: set<Key>, o: Order, limit: nat, after: Option<Key>, n: nat)
    requires 1 <= limit && n >= 1 && |Rest(live, o, after)| <= n * limit
    ensures Walk(Unchanged(live, n), o, limit, after) == (Sorted(o, Rest(live, o, after)), true)
  {
    FixedTablePages(live, o, limit, after, n);
    var lives := Unchanged(live, n);
    WalkIsExact(lives, o, limit, after);
    var out := Walk(lives, o, limit, after).0;
    forall k ensures k in out <==> k in Sorted(o, Rest(live, o, after)) {
      if k in live && Past(o, after, k) {
        assert forall i :: 0 <= i < n ==> k in lives[i];
      }
    }
    OrderedUnique(o, out, Sorted(o, Rest(live, o, after)));
  }

  // A page with a successor takes exactly `limit` rows off the rest.
  lemma PageConsumes(live: set<Key>, o: Order, limit: nat, after: Option<Key>)
    requires 1 <= limit && PageOf(live, o, limit, after).1.Some?
    ensures |Rest(live, o, PageOf(live, o, limit, after).1)| == |Rest(live, o, after)| - limit
  {
    var matching := Sorted(o, Rest(live, o, after));
    var next := PageOf(live, o, limit, after).1;
    var rest := Rest(live, o, next);
    assert next.value in matching;
    forall i | 0 <= i < |matching|
      ensures Before(o, next.value, matching[i]) <==> i >= limit
    {
      assert i < limit - 1 ==> Before(o, matching[i], matching[limit - 1]);
      assert i >= limit ==> Before(o, matching[limit - 1], matching[i]);
    }
    forall k | k in rest ensures k in matching[limit..] {
      assert k in matching;
      var i :| 0 <= i < |matching| && matching[i] == k;
      assert matching[limit..][i - limit] == k;
    }
    forall k | k in matching[limit..] ensures k in rest {
      var i :| 0 <= i < |matching[limit..]| && matching[limit..][i] == k;
      assert matching[limit + i] == k && k in matching;
    }
    OrderedUnique(o, Sorted(o, rest), matching[limit..]);
  }
}
