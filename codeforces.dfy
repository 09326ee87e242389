/** The parts of the Codeforces client the rank-role logic relies on: the
    ordered table of rated ranks, the rating-to-rank lookup, and the user and
    rating-change records the API returns.  The client module itself
    (tle/util/codeforces_api.py) is not part of this model: its rank table is
    a parameter `t`, and `RatingToRank` states the contract assumed of
    `rating2rank`. */
module Codeforces {
  import opened Common

  /** One rated rank: its title and the lowest rating it covers. */
  datatype Tier = Tier(title: string, lowerBound: int)

  /** Title of the rank given to a missing rating or one below every bound. */
  const UnratedTitle: string := "Unrated"

  /** A well-formed rank table: non-empty, bounds strictly increasing,
      titles distinct, non-empty and different from the Unrated title. */
  predicate ValidTable(t: seq<Tier>)
  {
    && |t| > 0
    && (forall i, j :: 0 <= i < j < |t| ==> t[i].lowerBound < t[j].lowerBound)
    && (forall i, j :: 0 <= i < j < |t| ==> t[i].title != t[j].title)
    && (forall i :: 0 <= i < |t| ==> t[i].title != UnratedTitle && t[i].title != "")
  }

  /** A rank: the Unrated sentinel or a position in the table. */
  datatype Rank = Unrated | Rated(index: nat)

  predicate RankIn(t: seq<Tier>, r: Rank)
  {
    r.Rated? ==> r.index < |t|
  }

  /** The position used to order ranks; Unrated comes before every rated rank. */
  function Ordinal(r: Rank): int
  {
    if r.Unrated? then -1 else r.index
  }

  /** The highest position below `k` whose bound is at most `rating`. */
  function HighestAtMost(t: seq<Tier>, rating: int, k: nat): (r: Rank)
    requires k <= |t|
    ensures r.Rated? ==> r.index < k && t[r.index].lowerBound <= rating
    ensures forall j :: (if r.Rated? then r.index + 1 else 0) <= j < k ==> rating < t[j].lowerBound
    decreases k
  {
    if k == 0 then Unrated
    else if t[k - 1].lowerBound <= rating then Rated(k - 1)
    else HighestAtMost(t, rating, k - 1)
  }

  /** `rating2rank`: the highest rank whose lower bound is at most the rating;
      Unrated when the rating is below every bound. */
  function RatingToRank(t: seq<Tier>, rating: int): (r: Rank)
    ensures RankIn(t, r)
    ensures r.Rated? ==> t[r.index].lowerBound <= rating
    ensures r.Rated? ==> forall j :: r.index < j < |t| ==> rating < t[j].lowerBound
    ensures r.Unrated? <==> forall j :: 0 <= j < |t| ==> rating < t[j].lowerBound
  {
    HighestAtMost(t, rating, |t|)
  }

  function Title(t: seq<Tier>, r: Rank): string
    requires RankIn(t, r)
  {
    if r.Unrated? then UnratedTitle else t[r.index].title
  }

  /** The titles of all rated ranks. */
  function RankTitles(t: seq<Tier>): set<string>
  {
    set i | 0 <= i < |t| :: t[i].title
  }

  /** `list.index` on the titles from position `i` on: the first match, or None
      where Python raises ValueError. */
  function IndexFrom(t: seq<Tier>, s: string, i: nat): (r: Option<nat>)
    requires i <= |t|
    ensures r.Some? ==> i <= r.value < |t| && t[r.value].title == s
    ensures r.Some? ==> forall j :: i <= j < r.value ==> t[j].title != s
    ensures r.None? <==> forall j :: i <= j < |t| ==> t[j].title != s
    decreases |t| - i
  {
    if i == |t| then None
    else if t[i].title == s then Some(i)
    else IndexFrom(t, s, i + 1)
  }

  /** Position of a title in the rank table (`rank_order.index(title)`). */
  function IndexOfTitle(t: seq<Tier>, s: string): (r: Option<nat>)
  {
    IndexFrom(t, s, 0)
  }

  /** A user as returned by `cf.user.info`: current and best rating, if rated. */
  datatype User = User(handle: Handle, rating: Option<int>, maxRating: Option<int>)

  /** The rank shown on a user's profile, derived from the current rating. */
  function UserRank(t: seq<Tier>, u: User): (r: Rank)
    ensures RankIn(t, r)
    ensures u.rating.None? ==> r.Unrated?
  {
    if u.rating.None? then Unrated else RatingToRank(t, u.rating.value)
  }

  /** One entry of a contest's rating changes, or of a user's rating history. */
  datatype RatingChange = RatingChange(handle: Handle, oldRating: int, newRating: int, updateTime: int)

  /** A higher rating never gets a lower rank. */
  lemma RankMonotone(t: seq<Tier>, a: int, b: int)
    requires ValidTable(t)
    requires a <= b
    ensures Ordinal(RatingToRank(t, a)) <= Ordinal(RatingToRank(t, b))
  {
  }

  /** Every lower bound is the first rating of its own rank. */
  lemma RankOfBound(t: seq<Tier>, i: nat)
    requires ValidTable(t)
    requires i < |t|
    ensures RatingToRank(t, t[i].lowerBound) == Rated(i)
  {
  }

  /** Looking a rank's title up in the table gives its position back; the
      Unrated title is not found. */
  lemma IndexOfRankTitle(t: seq<Tier>, r: Rank)
    requires ValidTable(t)
    requires RankIn(t, r)
    ensures IndexOfTitle(t, Title(t, r)) == if r.Rated? then Some(r.index) else None
  {
  }
}
