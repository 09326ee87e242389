/** The arithmetic behind the handle listings and the rank-update post:
    rating colours, display-name truncation, the `;handle list` pages, the
    page window of `;handle pretty`, and the ordered lists of rank changes and
    top rating increases. */
module Display {
  import opened Common
  import opened Codeforces
  import opened RankRoles

  // ---------------------------------------------------------------------------
  // Stable descending sort (`list.sort(key=..., reverse=True)`)

  predicate SortedDesc<T>(s: seq<T>, key: T -> int)
  {
    forall i, j :: 0 <= i < j < |s| ==> key(s[i]) >= key(s[j])
  }

  /** Insert `x` after every element whose key is at least its own. */
  function InsertDesc<T>(x: T, s: seq<T>, key: T -> int): (r: seq<T>)
    requires SortedDesc(s, key)
    ensures SortedDesc(r, key)
    ensures forall y :: y in r ==> y in s || y == x
    ensures |r| == |s| + 1
    decreases |s|
  {
    if s == [] then [x]
    else if key(s[0]) >= key(x) then
      var rest := InsertDesc(x, s[1..], key);
      assert forall y :: y in s[1..] ==> key(s[0]) >= key(y);
      [s[0]] + rest
    else [x] + s
  }

  lemma {:induction false} InsertDescPermutes<T>(x: T, s: seq<T>, key: T -> int)
    requires SortedDesc(s, key)
    ensures multiset(InsertDesc(x, s, key)) == multiset(s) + multiset{x}
    decreases |s|
  {
    if s != [] && key(s[0]) >= key(x) {
      InsertDescPermutes(x, s[1..], key);
      assert s == [s[0]] + s[1..];
    }
  }

  /** Python's sort with `reverse=True`: keys non-increasing, elements of
      equal key in their original order (see `SortDescStable`). */
  function SortDesc<T>(xs: seq<T>, key: T -> int): (r: seq<T>)
    ensures SortedDesc(r, key)
    ensures |r| == |xs|
    decreases |xs|
  {
    if xs == [] then []
    else InsertDesc(xs[|xs| - 1], SortDesc(xs[..|xs| - 1], key), key)
  }

  /** Sorting only reorders. */
  lemma {:induction false} SortDescPermutes<T>(xs: seq<T>, key: T -> int)
    ensures multiset(SortDesc(xs, key)) == multiset(xs)
    decreases |xs|
  {
    if xs != [] {
      var init, last := xs[..|xs| - 1], xs[|xs| - 1];
      var sorted := SortDesc(init, key);
      SortDescPermutes(init, key);
      InsertDescPermutes(last, sorted, key);
      assert SortDesc(xs, key) == InsertDesc(last, sorted, key);
      assert xs == init + [last];
      assert multiset(xs) == multiset(init) + multiset{last};
    }
  }

  /** A slice of a sorted list is sorted. */
  lemma SortedSlice<T>(s: seq<T>, key: T -> int, lo: nat, hi: nat)
    requires SortedDesc(s, key) && lo <= hi <= |s|
    ensures SortedDesc(s[lo..hi], key)
  {
    forall i, j | 0 <= i < j < hi - lo ensures key(s[lo..hi][i]) >= key(s[lo..hi][j]) {
      assert s[lo..hi][i] == s[lo + i] && s[lo..hi][j] == s[lo + j];
    }
  }

  /** The elements of `s` whose key is `k`, in order. */
  function WithKey<T>(s: seq<T>, key: T -> int, k: int): (r: seq<T>)
    ensures |r| <= |s|
    decreases |s|
  {
    if s == [] then []
    else WithKey(s[..|s| - 1], key, k) + (if key(s[|s| - 1]) == k then [s[|s| - 1]] else [])
  }

  lemma {:induction false} WithKeyCons<T>(x: T, s: seq<T>, key: T -> int, k: int)
    ensures WithKey([x] + s, key, k) == (if key(x) == k then [x] else []) + WithKey(s, key, k)
    decreases |s|
  {
    if s != [] {
      var xs := [x] + s;
      assert xs[..|xs| - 1] == [x] + s[..|s| - 1];
      assert xs[|xs| - 1] == s[|s| - 1];
      WithKeyCons(x, s[..|s| - 1], key, k);
    }
  }

  /** In a sorted list, the elements of key `k` lie before every element of a
      smaller key. */
  lemma {:induction false} WithKeyNone<T>(s: seq<T>, key: T -> int, k: int)
    requires forall i :: 0 <= i < |s| ==> key(s[i]) != k
    ensures WithKey(s, key, k) == []
    decreases |s|
  {
    if s != [] {
      WithKeyNone(s[..|s| - 1], key, k);
    }
  }

  lemma {:induction false} InsertDescStable<T>(x: T, s: seq<T>, key: T -> int, k: int)
    requires SortedDesc(s, key)
    ensures WithKey(InsertDesc(x, s, key), key, k) == WithKey(s, key, k) + (if key(x) == k then [x] else [])
    decreases |s|
  {
    if s == [] {
      WithKeyCons(x, [], key, k);
    } else if key(s[0]) >= key(x) {
      assert s == [s[0]] + s[1..];
      InsertDescStable(x, s[1..], key, k);
      WithKeyCons(s[0], InsertDesc(x, s[1..], key), key, k);
      WithKeyCons(s[0], s[1..], key, k);
    } else {
      WithKeyCons(x, s, key, k);
      if key(x) == k {
        WithKeyNone(s, key, k);
      }
    }
  }

  /** Stability: sorting keeps, for every key, the order of the elements with
      that key. */
  lemma {:induction false} SortDescStable<T>(xs: seq<T>, key: T -> int, k: int)
    ensures WithKey(SortDesc(xs, key), key, k) == WithKey(xs, key, k)
    decreases |xs|
  {
    if xs != [] {
      SortDescStable(xs[..|xs| - 1], key, k);
      InsertDescStable(xs[|xs| - 1], SortDesc(xs[..|xs| - 1], key), key, k);
    }
  }

  // ---------------------------------------------------------------------------
  // Rating colours (`rating_to_color`)

  datatype Rgb = Rgb(red: int, green: int, blue: int)

  const Black: Rgb := Rgb(10, 10, 10)
  const Grey: Rgb := Rgb(70, 70, 70)
  const Green: Rgb := Rgb(0, 140, 0)
  const Cyan: Rgb := Rgb(0, 165, 170)
  const Blue: Rgb := Rgb(0, 0, 200)
  const Purple: Rgb := Rgb(160, 0, 120)
  const Orange: Rgb := Rgb(250, 140, 30)
  const Red: Rgb := Rgb(255, 20, 20)

  /** The colour of a rating in the pretty listing; None is a missing rating
      (the source's None or 'N/A'). */
  function RatingToColor(rating: Option<int>): (c: Rgb)
    ensures rating.None? <==> c == Black
  {
    if rating.None? then Black
    else
      var r := rating.value;
      if r < 1200 then Grey
      else if r < 1400 then Green
      else if r < 1600 then Cyan
      else if r < 1900 then Blue
      else if r < 2100 then Purple
      else if r < 2400 then Orange
      else Red
  }

  /** The colour boundaries, in increasing order. */
  const ColorBounds: seq<int> := [1200, 1400, 1600, 1900, 2100, 2400]

  /** The number of boundaries at or below a rating: its colour band. */
  function Band(bounds: seq<int>, rating: int): (n: nat)
    ensures n <= |bounds|
    decreases |bounds|
  {
    if bounds == [] then 0
    else Band(bounds[..|bounds| - 1], rating) + (if bounds[|bounds| - 1] <= rating then 1 else 0)
  }

  lemma BandOfColorBounds(a: int)
    ensures Band(ColorBounds, a) ==
      if a < 1200 then 0 else if a < 1400 then 1 else if a < 1600 then 2 else if a < 1900 then 3
      else if a < 2100 then 4 else if a < 2400 then 5 else 6
  {
    var b0: seq<int> := [];
    var b1 := b0 + [1200];
    var b2 := b1 + [1400];
    var b3 := b2 + [1600];
    var b4 := b3 + [1900];
    var b5 := b4 + [2100];
    var b6 := b5 + [2400];
    assert b6[..5] == b5 && b5[..4] == b4 && b4[..3] == b3 && b3[..2] == b2 && b2[..1] == b1 && b1[..0] == b0;
    assert Band(b1, a) == if a < 1200 then 0 else 1;
    assert Band(b2, a) == Band(b1, a) + (if 1400 <= a then 1 else 0);
    assert Band(b3, a) == Band(b2, a) + (if 1600 <= a then 1 else 0);
    assert Band(b4, a) == Band(b3, a) + (if 1900 <= a then 1 else 0);
    assert Band(b5, a) == Band(b4, a) + (if 2100 <= a then 1 else 0);
    assert Band(b6, a) == Band(b5, a) + (if 2400 <= a then 1 else 0);
    assert b6 == ColorBounds;
  }

  /** Two ratings get the same colour exactly when they lie in the same band. */
  lemma ColorIdentifiesBand(a: int, b: int)
    ensures RatingToColor(Some(a)) == RatingToColor(Some(b)) <==> Band(ColorBounds, a) == Band(ColorBounds, b)
  {
    BandOfColorBounds(a);
    BandOfColorBounds(b);
  }

  /** A higher rating is never in a lower band. */
  lemma {:induction false} BandMonotone(bounds: seq<int>, a: int, b: int)
    requires a <= b
    ensures Band(bounds, a) <= Band(bounds, b)
    decreases |bounds|
  {
    if bounds != [] {
      BandMonotone(bounds[..|bounds| - 1], a, b);
    }
  }

  // ---------------------------------------------------------------------------
  // Display names (`_make_pages`)

  const NameMaxLen: nat := 20
  const Ellipsis: char := '\U{2026}'

  /** A name longer than 20 characters becomes its first 19 followed by an
      ellipsis. */
  function TruncateName(name: string): (r: string)
    ensures |r| <= NameMaxLen
    ensures |name| <= NameMaxLen ==> r == name
    ensures |name| > NameMaxLen ==>
              |r| == NameMaxLen && r[..NameMaxLen - 1] == name[..NameMaxLen - 1] && r[NameMaxLen - 1] == Ellipsis
  {
    if |name| > NameMaxLen then name[..NameMaxLen - 1] + [Ellipsis] else name
  }

  /** Truncating twice is truncating once. */
  lemma TruncateIdempotent(name: string)
    ensures TruncateName(TruncateName(name)) == TruncateName(name)
  {
  }

  // ---------------------------------------------------------------------------
  // The `;handle list` pages

  const HandlesPerPage: nat := 15

  /** `paginator.chunkify`: consecutive slices of `n` elements, the last one
      shorter.  (tle/util/paginator.py is not part of this model; this is its
      assumed behaviour.) */
  function Chunkify<T>(xs: seq<T>, n: nat): (chunks: seq<seq<T>>)
    requires n > 0
    ensures chunks == [] <==> xs == []
    ensures forall p :: 0 <= p < |chunks| - 1 ==> |chunks[p]| == n
    ensures chunks != [] ==> 0 < |chunks[|chunks| - 1]| <= n
    decreases |xs|
  {
    if xs == [] then []
    else if |xs| <= n then [xs]
    else [xs[..n]] + Chunkify(xs[n..], n)
  }

  /** The concatenation of a list of lists. */
  function Flatten<T>(xss: seq<seq<T>>): seq<T>
    decreases |xss|
  {
    if xss == [] then [] else xss[0] + Flatten(xss[1..])
  }

  lemma {:induction false} FlattenSnoc<T>(xss: seq<seq<T>>, xs: seq<T>)
    ensures Flatten(xss + [xs]) == Flatten(xss) + xs
    decreases |xss|
  {
    if xss == [] {
      assert [] + [xs] == [xs];
      assert Flatten([xs]) == xs + Flatten([xs][1..]);
    } else {
      assert (xss + [xs])[1..] == xss[1..] + [xs];
      FlattenSnoc(xss[1..], xs);
    }
  }

  /** The chunks, put back together, are the list. */
  lemma {:induction false} ChunkifyFlatten<T>(xs: seq<T>, n: nat)
    requires n > 0
    ensures Flatten(Chunkify(xs, n)) == xs
    decreases |xs|
  {
    if xs != [] && |xs| > n {
      ChunkifyFlatten(xs[n..], n);
      var cs := Chunkify(xs, n);
      assert cs[1..] == Chunkify(xs[n..], n);
      assert xs == xs[..n] + xs[n..];
    } else if xs != [] {
      assert Flatten([xs]) == xs + Flatten([xs][1..]);
    }
  }

  /** A listed member: display name, handle and rating. */
  datatype Listed = Listed(name: string, handle: Handle, rating: Option<int>)

  /** A table row: position in the whole list, shortened name, handle,
      rating and its rank. */
  datatype PageRow = PageRow(index: nat, name: string, handle: Handle, rating: Option<int>, rank: Rank)

  function RowOf(t: seq<Tier>, u: Listed, index: nat): PageRow
  {
    PageRow(index, TruncateName(u.name), u.handle, u.rating,
            if u.rating.None? then Unrated else RatingToRank(t, u.rating.value))
  }

  /** The rows of the members at positions `lo` up to `hi`. */
  function RowsOf(t: seq<Tier>, users: seq<Listed>, lo: nat, hi: nat): (r: seq<PageRow>)
    requires lo <= hi <= |users|
    ensures |r| == hi - lo
    ensures forall i :: 0 <= i < hi - lo ==> r[i] == RowOf(t, users[lo + i], lo + i)
  {
    seq(hi - lo, i requires 0 <= i < hi - lo => RowOf(t, users[lo + i], lo + i))
  }

  lemma RowsOfAppend(t: seq<Tier>, users: seq<Listed>, lo: nat, mid: nat, hi: nat)
    requires lo <= mid <= hi <= |users|
    ensures RowsOf(t, users, lo, mid) + RowsOf(t, users, mid, hi) == RowsOf(t, users, lo, hi)
  {
  }

  /** The inner loop of `_make_pages`: the rows of one chunk, numbered from
      `lo` (the source's `i + done`). */
  method ChunkRows(t: seq<Tier>, users: seq<Listed>, lo: nat, hi: nat) returns (rows: seq<PageRow>)
    requires lo <= hi <= |users|
    ensures rows == RowsOf(t, users, lo, hi)
  {
    rows := [];
    for i := 0 to hi - lo
      invariant |rows| == i
      invariant forall j :: 0 <= j < i ==> rows[j] == RowOf(t, users[lo + j], lo + j)
    {
      rows := rows + [RowOf(t, users[lo + i], lo + i)];
    }
  }

  /** `_make_pages`: rows in chunks of 15, each numbered by its position in
      the whole list.  The chunks are the consecutive slices `Chunkify`
      describes, taken here by their bounds. */
  method MakePages(t: seq<Tier>, users: seq<Listed>) returns (pages: seq<seq<PageRow>>)
    ensures Flatten(pages) == RowsOf(t, users, 0, |users|)
    ensures pages == [] <==> users == []
    ensures forall p :: 0 <= p < |pages| - 1 ==> |pages[p]| == HandlesPerPage
    ensures pages != [] ==> 0 < |pages[|pages| - 1]| <= HandlesPerPage
  {
    pages := [];
    var done: nat := 0;
    while done < |users|
      invariant done <= |users|
      invariant Flatten(pages) == RowsOf(t, users, 0, done)
      invariant pages == [] <==> done == 0
      invariant forall p :: 0 <= p < |pages| - 1 ==> |pages[p]| == HandlesPerPage
      invariant pages != [] ==> 0 < |pages[|pages| - 1]| <= HandlesPerPage
      invariant pages != [] && done < |users| ==> |pages[|pages| - 1]| == HandlesPerPage
      decreases |users| - done
    {
      var hi := Min(done + HandlesPerPage, |users|);
      var rows := ChunkRows(t, users, done, hi);
      FlattenSnoc(pages, rows);
      RowsOfAppend(t, users, 0, done, hi);
      pages := pages + [rows];
      done := hi;
    }
  }

  /** Full pages of `n`, then one non-empty last page of at most `n`. */
  predicate Paged<T>(xss: seq<seq<T>>, n: nat)
  {
    && (forall p :: 0 <= p < |xss| - 1 ==> |xss[p]| == n)
    && (xss != [] ==> 0 < |xss[|xss| - 1]| <= n)
  }

  lemma PagedTail<T>(xss: seq<seq<T>>, n: nat)
    requires Paged(xss, n) && |xss| > 1
    ensures Paged(xss[1..], n) && |xss[0]| == n
  {
    forall p | 0 <= p < |xss[1..]| - 1 ensures |xss[1..][p]| == n {
      assert xss[1..][p] == xss[p + 1];
    }
  }

  /** A paged list of lists is empty exactly when its concatenation is. */
  lemma {:induction false} PagedEmpty<T>(xss: seq<seq<T>>, n: nat)
    requires n > 0 && Paged(xss, n)
    ensures xss == [] <==> Flatten(xss) == []
  {
    if xss != [] {
      assert |xss[0]| > 0 by {
        if |xss| > 1 { assert |xss[0]| == n; }
      }
      assert |Flatten(xss)| == |xss[0]| + |Flatten(xss[1..])|;
    }
  }

  /** The page lengths are fixed by the total length: two paged lists of the
      same total length have pages of the same lengths. */
  lemma {:induction false} PagedUnique<T, U>(a: seq<seq<T>>, b: seq<seq<U>>, n: nat)
    requires n > 0 && Paged(a, n) && Paged(b, n)
    requires |Flatten(a)| == |Flatten(b)|
    ensures |a| == |b|
    ensures forall p :: 0 <= p < |a| ==> |a[p]| == |b[p]|
    decreases |a|
  {
    PagedEmpty(a, n);
    PagedEmpty(b, n);
    if a != [] && b != [] {
      assert |Flatten(a)| == |a[0]| + |Flatten(a[1..])|;
      assert |Flatten(b)| == |b[0]| + |Flatten(b[1..])|;
      if |a| > 1 {
        PagedTail(a, n);
        PagedEmpty(a[1..], n);
      }
      if |b| > 1 {
        PagedTail(b, n);
        PagedEmpty(b[1..], n);
      }
      if |a| > 1 && |b| > 1 {
        PagedUnique(a[1..], b[1..], n);
        forall p | 0 <= p < |a| ensures |a[p]| == |b[p]| {
          if p > 0 {
            assert a[p] == a[1..][p - 1] && b[p] == b[1..][p - 1];
          }
        }
      }
    }
  }

  /** The pages follow `chunkify`: as many pages as chunks, each as long as
      its chunk. */
  lemma PagesFollowChunks(t: seq<Tier>, users: seq<Listed>, pages: seq<seq<PageRow>>)
    requires Flatten(pages) == RowsOf(t, users, 0, |users|)
    requires forall p :: 0 <= p < |pages| - 1 ==> |pages[p]| == HandlesPerPage
    requires pages != [] ==> 0 < |pages[|pages| - 1]| <= HandlesPerPage
    ensures |pages| == |Chunkify(users, HandlesPerPage)|
    ensures forall p :: 0 <= p < |pages| ==> |pages[p]| == |Chunkify(users, HandlesPerPage)[p]|
  {
    ChunkifyFlatten(users, HandlesPerPage);
    PagedUnique(pages, Chunkify(users, HandlesPerPage), HandlesPerPage);
  }

  // ---------------------------------------------------------------------------
  // The `;handle pretty` window

  const PrettyPerPage: nat := 10

  /** `math.ceil(n / 10) - 1`. */
  function MaxPage(n: nat): int
  {
    (n + PrettyPerPage - 1) / PrettyPerPage - 1
  }

  datatype PrettyError = NoMembers | PageRequired(maxPage: int)

  /** The note sent with the image: none, the clamping notice (the page range
      and the page shown), or the neighbourhood notice. */
  datatype PrettyNote = NoNote | Clamped(maxPage: int, shown: int) | Neighbourhood

  datatype Window = Window(start: nat, note: PrettyNote)

  /** The first row shown for `n` rows, the author's row if the author is
      listed, and the requested page if any. */
  function PrettyWindow(n: nat, author: Option<nat>, pageNo: Option<int>): Result<Window, PrettyError>
    requires author.Some? ==> author.value < n
  {
    if n == 0 then Failure(NoMembers)
    else
      var maxPage := MaxPage(n);
      if author.None? && pageNo.None? then Failure(PageRequired(maxPage))
      else if pageNo.Some? then
        var p := pageNo.value;
        if p < 0 then Success(Window(0, Clamped(maxPage, 0)))
        else if maxPage < p then Success(Window(maxPage * PrettyPerPage, Clamped(maxPage, maxPage)))
        else Success(Window(p * PrettyPerPage, NoNote))
      else
        Success(Window(Max(0, author.value - (PrettyPerPage - 1) / 2), Neighbourhood))
  }

  /** The window: an error exactly for no rows, or for an unlisted author
      with no page; otherwise a non-empty run of at most 10 rows starting at a
      page boundary (the requested page, clamped to the valid range) or, with
      no page, four rows before the author, with the author shown. */
  lemma PrettyWindowSpec(n: nat, author: Option<nat>, pageNo: Option<int>)
    requires author.Some? ==> author.value < n
    ensures var r := PrettyWindow(n, author, pageNo);
      && (r == Failure(NoMembers) <==> n == 0)
      && (r.Failure? && r.error.PageRequired? <==> n > 0 && author.None? && pageNo.None?)
      && (n > 0 ==> 0 <= MaxPage(n) && MaxPage(n) * PrettyPerPage < n <= (MaxPage(n) + 1) * PrettyPerPage)
      && (r.Success? ==>
            && r.value.start < n
            && 0 < Min(r.value.start + PrettyPerPage, n) - r.value.start <= PrettyPerPage
            && (pageNo.Some? ==>
                  var shown := if pageNo.value < 0 then 0 else if MaxPage(n) < pageNo.value then MaxPage(n) else pageNo.value;
                  && r.value.start == shown * PrettyPerPage
                  && (r.value.note == NoNote <==> pageNo.value == shown))
            && (pageNo.None? ==>
                  && r.value.start <= author.value < r.value.start + PrettyPerPage
                  && r.value.start == Max(0, author.value - 4)))
  {
  }

  /** The part of the window facts the rows need: where it may start, and
      that it contains the author when no page is given. */
  lemma WindowBounds(n: nat, author: Option<nat>, pageNo: Option<int>)
    requires author.Some? ==> author.value < n
    ensures var r := PrettyWindow(n, author, pageNo);
      && (r.Failure? && r.error.PageRequired? <==> n > 0 && author.None? && pageNo.None?)
      && (r.Success? ==> r.value.start < n)
      && (r.Success? && pageNo.None? ==> author.Some? && r.value.start <= author.value < r.value.start + PrettyPerPage)
  {
    PrettyWindowSpec(n, author, pageNo);
  }

  // ---------------------------------------------------------------------------
  // The rows of `;handle pretty`

  /** A linked member with the user record found for their handle. */
  type Entry = (MemberId, User)

  function RatingKey(e: Entry): int
  {
    if e.1.rating.Some? then e.1.rating.value else -1
  }

  /** Linked pairs whose handle has a user record, in table order. */
  function KnownEntries(links: seq<Link>, users: map<Handle, User>): (r: seq<Entry>)
    ensures |r| <= |links|
    decreases |links|
  {
    if links == [] then []
    else
      var rest := KnownEntries(links[..|links| - 1], users);
      var l := links[|links| - 1];
      if l.1 in users then rest + [(l.0, users[l.1])] else rest
  }

  /** Every row comes from a link whose handle has a user record, with that
      record; and every such link gives a row. */
  lemma {:induction false} KnownEntriesExact(links: seq<Link>, users: map<Handle, User>)
    ensures forall e :: e in KnownEntries(links, users) <==>
              exists l :: l in links && l.1 in users && e == (l.0, users[l.1])
    decreases |links|
  {
    if links != [] {
      var prefix := links[..|links| - 1];
      var l := links[|links| - 1];
      KnownEntriesExact(prefix, users);
      assert links == prefix + [l];
      forall e ensures e in KnownEntries(links, users) <==> exists x :: x in links && x.1 in users && e == (x.0, users[x.1]) {
        if e in KnownEntries(links, users) {
          if e in KnownEntries(prefix, users) {
            var x :| x in prefix && x.1 in users && e == (x.0, users[x.1]);
            assert x in links;
          } else {
            assert l in links;
          }
        }
        if exists x :: x in links && x.1 in users && e == (x.0, users[x.1]) {
          var x :| x in links && x.1 in users && e == (x.0, users[x.1]);
          if x != l {
            assert x in prefix;
          }
        }
      }
    }
  }

  /** Keep the entries of present members. */
  function PresentEntries(es: seq<Entry>, present: set<MemberId>): (r: seq<Entry>)
    ensures forall i :: 0 <= i < |r| ==> r[i].0 in present && r[i] in es
    ensures forall e :: e in es && e.0 in present ==> e in r
    decreases |es|
  {
    if es == [] then []
    else
      var rest := PresentEntries(es[..|es| - 1], present);
      var e := es[|es| - 1];
      assert forall x :: x in es <==> x in es[..|es| - 1] || x == e;
      if e.0 in present then rest + [e] else rest
  }

  /** A subsequence of a sorted list is sorted. */
  lemma {:induction false} PresentEntriesSorted(es: seq<Entry>, present: set<MemberId>)
    requires SortedDesc(es, RatingKey)
    ensures SortedDesc(PresentEntries(es, present), RatingKey)
    decreases |es|
  {
    if es != [] {
      var prefix := es[..|es| - 1];
      PresentEntriesSorted(prefix, present);
      var rest := PresentEntries(prefix, present);
      var e := es[|es| - 1];
      if e.0 in present {
        forall i | 0 <= i < |rest| ensures RatingKey(rest[i]) >= RatingKey(e) {
          var j :| 0 <= j < |prefix| && prefix[j] == rest[i];
          assert es[j] == prefix[j];
        }
      }
    }
  }

  /** The rows of the pretty listing: known handles, sorted by rating from
      highest (a missing rating counts as -1), absent members dropped. */
  function PrettyRows(links: seq<Link>, users: map<Handle, User>, present: set<MemberId>): (rows: seq<Entry>)
    ensures SortedDesc(rows, RatingKey)
    ensures forall i :: 0 <= i < |rows| ==> rows[i].0 in present
    ensures forall e :: e in rows <==> e in KnownEntries(links, users) && e.0 in present
  {
    var known := KnownEntries(links, users);
    var sorted := SortDesc(known, RatingKey);
    SortDescPermutes(known, RatingKey);
    assert forall e :: e in sorted <==> e in known by {
      forall e ensures e in sorted <==> e in known {
        assert e in sorted <==> e in multiset(sorted);
        assert e in known <==> e in multiset(known);
      }
    }
    PresentEntriesSorted(sorted, present);
    PresentEntries(sorted, present)
  }

  /** `author_idx`: the last row of the author. */
  function AuthorIndex(rows: seq<Entry>, author: MemberId): (r: Option<nat>)
    ensures r.Some? ==> r.value < |rows| && rows[r.value].0 == author
    ensures r.Some? ==> forall j :: r.value < j < |rows| ==> rows[j].0 != author
    ensures r.None? <==> forall j :: 0 <= j < |rows| ==> rows[j].0 != author
    decreases |rows|
  {
    if rows == [] then None
    else if rows[|rows| - 1].0 == author then Some(|rows| - 1)
    else AuthorIndex(rows[..|rows| - 1], author)
  }

  /** The rows of one image, cut from the sorted rows around the author or
      at the requested page, and the note. */
  function PageOf(rows: seq<Entry>, author: MemberId, pageNo: Option<int>): Result<(seq<Entry>, PrettyNote), PrettyError>
  {
    var authorIdx := AuthorIndex(rows, author);
    match PrettyWindow(|rows|, authorIdx, pageNo)
    case Failure(e) => Failure(e)
    case Success(w) =>
      WindowBounds(|rows|, authorIdx, pageNo);
      Success((rows[w.start .. Min(w.start + PrettyPerPage, |rows|)], w.note))
  }

  /** `pretty(page_no)`: the rows on the image and the note. */
  function Pretty(links: seq<Link>, users: map<Handle, User>, present: set<MemberId>,
                  author: MemberId, pageNo: Option<int>): Result<(seq<Entry>, PrettyNote), PrettyError>
  {
    if links == [] then Failure(NoMembers)
    else PageOf(PrettyRows(links, users, present), author, pageNo)
  }

  /** One image of sorted rows shows between one and ten of them, in order,
      and the author when no page is given; a page is asked for exactly when
      there are rows, none of them the author's, and no page was given. */
  lemma PageOfShows(rows: seq<Entry>, author: MemberId, pageNo: Option<int>)
    requires SortedDesc(rows, RatingKey)
    ensures var r := PageOf(rows, author, pageNo);
      && (r.Success? ==> 0 < |r.value.0| <= PrettyPerPage)
      && (r.Success? ==> SortedDesc(r.value.0, RatingKey))
      && (r.Success? && pageNo.None? ==> exists i :: 0 <= i < |r.value.0| && r.value.0[i].0 == author)
      && (r.Failure? && r.error.PageRequired? <==>
            pageNo.None? && rows != [] && forall i :: 0 <= i < |rows| ==> rows[i].0 != author)
  {
    var authorIdx := AuthorIndex(rows, author);
    WindowBounds(|rows|, authorIdx, pageNo);
    var w := PrettyWindow(|rows|, authorIdx, pageNo);
    if w.Success? {
      var lo, hi := w.value.start, Min(w.value.start + PrettyPerPage, |rows|);
      var shown := rows[lo .. hi];
      SortedSlice(rows, RatingKey, lo, hi);
      if pageNo.None? {
        var i := authorIdx.value - lo;
        assert shown[i] == rows[authorIdx.value];
      }
    }
  }

  /** The image shows between one and ten rows, highest rating first, and
      without a page number it shows the author; an unlisted author with no
      page number is asked for one. */
  lemma PrettyShows(links: seq<Link>, users: map<Handle, User>, present: set<MemberId>,
                    author: MemberId, pageNo: Option<int>)
    ensures var r := Pretty(links, users, present, author, pageNo);
      && (r.Success? ==> 0 < |r.value.0| <= PrettyPerPage)
      && (r.Success? ==> SortedDesc(r.value.0, RatingKey))
      && (r.Success? && pageNo.None? ==> exists i :: 0 <= i < |r.value.0| && r.value.0[i].0 == author)
      && (r.Failure? && r.error.PageRequired? <==>
            links != [] && pageNo.None? && PrettyRows(links, users, present) != [] &&
            forall i :: 0 <= i < |PrettyRows(links, users, present)| ==> PrettyRows(links, users, present)[i].0 != author)
  {
    if links != [] {
      PageOfShows(PrettyRows(links, users, present), author, pageNo);
    }
  }

  // ---------------------------------------------------------------------------
  // The rank-update post (`_make_rankup_embeds`)

  /** A member of the guild rated in the contest, with their change. */
  datatype Candidate = Candidate(member: MemberId, change: RatingChange)

  function Delta(c: Candidate): int
  {
    c.change.newRating - c.change.oldRating
  }

  function NewRatingOf(c: Candidate): int
  {
    c.change.newRating
  }

  /** `member_change_pairs`: linked members present in the guild, rated in
      the contest, and not in Purgatory, in table order. */
  function RankupCandidates(links: seq<Link>, members: map<MemberId, set<string>>,
                            changes: map<Handle, RatingChange>): (r: seq<Candidate>)
    ensures forall i :: 0 <= i < |r| ==>
              r[i].member in members && Purgatory !in members[r[i].member] &&
              exists l :: l in links && l.0 == r[i].member && l.1 in changes && r[i].change == changes[l.1]
    ensures forall l :: l in links && l.0 in members && Purgatory !in members[l.0] && l.1 in changes ==>
              Candidate(l.0, changes[l.1]) in r
    decreases |links|
  {
    if links == [] then []
    else
      var rest := RankupCandidates(links[..|links| - 1], members, changes);
      var l := links[|links| - 1];
      assert forall x :: x in links <==> x in links[..|links| - 1] || x == l;
      assert l in links;
      if l.0 in members && l.1 in changes && Purgatory !in members[l.0] then rest + [Candidate(l.0, changes[l.1])]
      else rest
  }

  const TopDeltasCount: nat := 10

  /** The loop over `member_change_pairs[:10]` that stops at the first
      non-positive delta. */
  method TopIncreases(cands: seq<Candidate>) returns (top: seq<Candidate>)
    ensures |top| <= Min(TopDeltasCount, |cands|) && top == cands[..|top|]
    ensures forall i :: 0 <= i < |top| ==> Delta(top[i]) > 0
    ensures |top| < Min(TopDeltasCount, |cands|) ==> Delta(cands[|top|]) <= 0
  {
    top := [];
    var window := cands[..Min(TopDeltasCount, |cands|)];
    for i := 0 to |window|
      invariant top == cands[..i]
      invariant forall j :: 0 <= j < i ==> Delta(cands[j]) > 0
    {
      if Delta(window[i]) <= 0 {
        break;
      }
      top := top + [window[i]];
    }
  }

  /** Over the list sorted by delta, the selection is the best of all: in
      non-increasing delta order, no left-out candidate has a larger delta
      than a chosen one, and with fewer than ten chosen, every positive delta
      is chosen. */
  lemma TopIncreasesBest(cands: seq<Candidate>, top: seq<Candidate>)
    requires SortedDesc(cands, Delta)
    requires |top| <= Min(TopDeltasCount, |cands|) && top == cands[..|top|]
    requires forall i :: 0 <= i < |top| ==> Delta(top[i]) > 0
    requires |top| < Min(TopDeltasCount, |cands|) ==> Delta(cands[|top|]) <= 0
    ensures SortedDesc(top, Delta)
    ensures forall i, j :: 0 <= i < |top| && |top| <= j < |cands| ==> Delta(cands[j]) <= Delta(top[i])
    ensures |top| < TopDeltasCount ==> forall j :: |top| <= j < |cands| ==> Delta(cands[j]) <= 0
  {
    forall i, j | 0 <= i < j < |top| ensures Delta(top[i]) >= Delta(top[j]) {
      assert top[i] == cands[i] && top[j] == cands[j];
    }
    forall i, j | 0 <= i < |top| && |top| <= j < |cands| ensures Delta(cands[j]) <= Delta(top[i]) {
      assert top[i] == cands[i];
    }
    if |top| < TopDeltasCount {
      forall j | |top| <= j < |cands| ensures Delta(cands[j]) <= 0 {
        assert Delta(cands[j]) <= Delta(cands[|top|]);
      }
    }
  }

  /** How a rank is shown: the role's mention when the guild has that role,
      otherwise the plain title. */
  datatype Shown = Mention(title: string) | Plain(title: string)

  function Displayable(t: seq<Tier>, roleNames: set<string>, rating: int): Shown
  {
    var title := Title(t, RatingToRank(t, rating));
    if title in roleNames then Mention(title) else Plain(title)
  }

  /** The rank shown before the contest: 'Unrated' for a first contest (old
      rating 1500 and one cached change), otherwise the old rating's rank.
      `cached` stands for the number of cached changes per handle. */
  function OldShown(t: seq<Tier>, roleNames: set<string>, cached: map<Handle, nat>, c: Candidate): Shown
  {
    if c.change.oldRating == 1500 && c.change.handle in cached && cached[c.change.handle] == 1 then Plain(UnratedTitle)
    else Displayable(t, roleNames, c.change.oldRating)
  }

  /** One line of the rank-change list. */
  datatype RankChange = RankChange(member: MemberId, handle: Handle, before: Shown, after: Shown)

  /** Whether a candidate's shown rank differs before and after the contest. */
  predicate ShownChanged(t: seq<Tier>, roleNames: set<string>, cached: map<Handle, nat>, c: Candidate)
  {
    OldShown(t, roleNames, cached, c) != Displayable(t, roleNames, c.change.newRating)
  }

  /** A candidate's line: member, handle, rank shown before and after. */
  function LineOf(t: seq<Tier>, roleNames: set<string>, cached: map<Handle, nat>, c: Candidate): RankChange
  {
    RankChange(c.member, c.change.handle, OldShown(t, roleNames, cached, c), Displayable(t, roleNames, c.change.newRating))
  }

  /** `rank_changes_str`: the candidates whose shown rank changed, in order. */
  function RankChanges(t: seq<Tier>, roleNames: set<string>, cached: map<Handle, nat>, cands: seq<Candidate>): (r: seq<RankChange>)
    ensures |r| <= |cands|
    ensures forall i :: 0 <= i < |r| ==> r[i].before != r[i].after
    decreases |cands|
  {
    if cands == [] then []
    else
      var rest := RankChanges(t, roleNames, cached, cands[..|cands| - 1]);
      var c := cands[|cands| - 1];
      if ShownChanged(t, roleNames, cached, c) then rest + [LineOf(t, roleNames, cached, c)] else rest
  }

  /** `idx` lists, in increasing order, the positions of the candidates whose
      shown rank changed, and `r` holds their lines in that order. */
  ghost predicate LinesAt(t: seq<Tier>, roleNames: set<string>, cached: map<Handle, nat>,
                          cands: seq<Candidate>, r: seq<RankChange>, idx: seq<int>)
  {
    && |idx| == |r|
    && (forall i :: 0 <= i < |idx| ==> 0 <= idx[i] < |cands|)
    && (forall i, j :: 0 <= i < j < |idx| ==> idx[i] < idx[j])
    && (forall i :: 0 <= i < |idx| ==> r[i] == LineOf(t, roleNames, cached, cands[idx[i]]))
    && (forall i :: 0 <= i < |idx| ==> ShownChanged(t, roleNames, cached, cands[idx[i]]))
    && (forall k :: 0 <= k < |cands| && ShownChanged(t, roleNames, cached, cands[k]) ==> k in idx)
  }

  /** The list holds a line for exactly the candidates whose shown rank
      changed, each with that candidate's member, handle, old shown rank and
      new shown rank, in the candidates' order: their positions are
      `ChangedPositions`. */
  lemma {:induction false} RankChangesExact(t: seq<Tier>, roleNames: set<string>, cached: map<Handle, nat>,
                                            cands: seq<Candidate>)
    ensures LinesAt(t, roleNames, cached, cands, RankChanges(t, roleNames, cached, cands),
                    ChangedPositions(t, roleNames, cached, cands))
    decreases |cands|
  {
    if cands == [] {
      assert RankChanges(t, roleNames, cached, cands) == [];
      assert ChangedPositions(t, roleNames, cached, cands) == [];
    } else {
      var prefix := cands[..|cands| - 1];
      var c := cands[|cands| - 1];
      RankChangesExact(t, roleNames, cached, prefix);
      var rest := RankChanges(t, roleNames, cached, prefix);
      var idx := ChangedPositions(t, roleNames, cached, prefix);
      assert cands == prefix + [c];
      if ShownChanged(t, roleNames, cached, c) {
        LinesAtExtend(t, roleNames, cached, prefix, rest, idx, c);
      } else {
        LinesAtSkip(t, roleNames, cached, prefix, rest, idx, c);
      }
    }
  }

  /** The positions of the candidates whose shown rank changed. */
  ghost function ChangedPositions(t: seq<Tier>, roleNames: set<string>, cached: map<Handle, nat>,
                                  cands: seq<Candidate>): seq<int>
    decreases |cands|
  {
    if cands == [] then []
    else
      var rest := ChangedPositions(t, roleNames, cached, cands[..|cands| - 1]);
      if ShownChanged(t, roleNames, cached, cands[|cands| - 1]) then rest + [|cands| - 1] else rest
  }

  /** A changed candidate appended to the list adds its line at the end. */
  lemma LinesAtExtend(t: seq<Tier>, roleNames: set<string>, cached: map<Handle, nat>,
                      cands: seq<Candidate>, r: seq<RankChange>, idx: seq<int>, c: Candidate)
    requires LinesAt(t, roleNames, cached, cands, r, idx)
    requires ShownChanged(t, roleNames, cached, c)
    ensures LinesAt(t, roleNames, cached, cands + [c], r + [LineOf(t, roleNames, cached, c)], idx + [|cands|])
  {
    var cs, r', idx' := cands + [c], r + [LineOf(t, roleNames, cached, c)], idx + [|cands|];
    forall i | 0 <= i < |idx'|
      ensures 0 <= idx'[i] < |cs| && r'[i] == LineOf(t, roleNames, cached, cs[idx'[i]])
      ensures ShownChanged(t, roleNames, cached, cs[idx'[i]])
    {
      if i < |idx| {
        assert idx'[i] == idx[i] && r'[i] == r[i] && cs[idx[i]] == cands[idx[i]];
      }
    }
    forall k | 0 <= k < |cs| && ShownChanged(t, roleNames, cached, cs[k]) ensures k in idx' {
      if k < |cands| {
        assert cs[k] == cands[k];
        assert k in idx;
      } else {
        assert idx'[|idx|] == k;
      }
    }
  }

  /** An unchanged candidate appended to the list adds no line. */
  lemma LinesAtSkip(t: seq<Tier>, roleNames: set<string>, cached: map<Handle, nat>,
                    cands: seq<Candidate>, r: seq<RankChange>, idx: seq<int>, c: Candidate)
    requires LinesAt(t, roleNames, cached, cands, r, idx)
    requires !ShownChanged(t, roleNames, cached, c)
    ensures LinesAt(t, roleNames, cached, cands + [c], r, idx)
  {
    var cs := cands + [c];
    assert forall k :: 0 <= k < |cands| ==> cs[k] == cands[k];
  }

  /** Apart from a first contest, a line is listed exactly when the rank
      title changed. */
  lemma DisplayableIffTitle(t: seq<Tier>, roleNames: set<string>, a: int, b: int)
    ensures Displayable(t, roleNames, a) == Displayable(t, roleNames, b) <==>
              Title(t, RatingToRank(t, a)) == Title(t, RatingToRank(t, b))
  {
  }

  /** The two orders of the post: rank changes by new rating, increases by
      delta with ties by new rating (the second sort is stable). */
  function RankupLists(t: seq<Tier>, links: seq<Link>, members: map<MemberId, set<string>>, roleNames: set<string>,
                       changes: map<Handle, RatingChange>, cached: map<Handle, nat>)
    : (r: Result<(seq<RankChange>, seq<Candidate>), string>)
    ensures r.Failure? <==> RankupCandidates(links, members, changes) == []
    ensures r.Success? ==> r.value.0 == RankChanges(t, roleNames, cached, SortDesc(RankupCandidates(links, members, changes), NewRatingOf))
    ensures r.Success? ==> r.value.1 == SortDesc(SortDesc(RankupCandidates(links, members, changes), NewRatingOf), Delta)
  {
    var cands := RankupCandidates(links, members, changes);
    if cands == [] then Failure("not rated for any member")
    else
      var byRating := SortDesc(cands, NewRatingOf);
      Success((RankChanges(t, roleNames, cached, byRating), SortDesc(byRating, Delta)))
  }

  /** Equal deltas are listed by new rating, highest first. */
  lemma TiesByNewRating(cands: seq<Candidate>, k: int)
    ensures SortedDesc(WithKey(SortDesc(SortDesc(cands, NewRatingOf), Delta), Delta, k), NewRatingOf)
  {
    var byRating := SortDesc(cands, NewRatingOf);
    SortDescStable(byRating, Delta, k);
    WithKeySorted(byRating, Delta, NewRatingOf, k);
  }

  /** Picking the elements of one key from a list sorted by another key keeps
      it sorted by that other key. */
  lemma {:induction false} WithKeySorted<T>(s: seq<T>, key: T -> int, order: T -> int, k: int)
    requires SortedDesc(s, order)
    ensures SortedDesc(WithKey(s, key, k), order)
    ensures forall x :: x in WithKey(s, key, k) ==> x in s
    decreases |s|
  {
    if s != [] {
      var prefix := s[..|s| - 1];
      WithKeySorted(prefix, key, order, k);
      var rest := WithKey(prefix, key, k);
      var last := s[|s| - 1];
      forall x | x in rest ensures order(x) >= order(last) && x in s {
        var j :| 0 <= j < |prefix| && prefix[j] == x;
        assert s[j] == x;
      }
    }
  }
}
