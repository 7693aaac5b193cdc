/** The projects grid of `assets/main.js`: the "ongoing" test on a card's end
    date, the "ongoing only" filter, and the four sort orders. A card is
    reduced to its already-parsed start timestamp (milliseconds) and the raw
    text of its end date. */
module Projects {
  import opened Text

  /** A project card: `data-start` as a timestamp, `data-end` as written
      (the empty string when the attribute is missing). */
  datatype Card = Card(start: int, endText: string)

  const PresentWord := "present"

  /** `isOngoing`: no end date, or an end date reading "present" in any case. */
  predicate IsOngoing(c: Card) {
    ToLower(c.endText) == PresentWord || c.endText == ""
  }

  /** Seven letters, each one the letter of `PresentWord` in lower or upper case. */
  predicate PresentAnyCase(e: string) {
    |e| == |PresentWord| && forall i :: 0 <= i < |PresentWord| ==> e[i] == PresentWord[i] || e[i] == "PRESENT"[i]
  }

  /** Ongoing exactly when the end text is empty or spells "present" letter by
      letter, ignoring the case of each letter. */
  lemma {:induction false} IsOngoingIff(c: Card)
    ensures IsOngoing(c) <==> c.endText == "" || PresentAnyCase(c.endText)
  {
    var e := c.endText;
    if |e| == 7 {
      var l := ToLower(e);
      forall i | 0 <= i < 7
        ensures l[i] == PresentWord[i] <==> e[i] == PresentWord[i] || e[i] == "PRESENT"[i]
      {
      }
      if PresentAnyCase(e) {
        assert l == PresentWord;
      }
    }
  }

  lemma OngoingExamples()
    ensures IsOngoing(Card(0, "")) && IsOngoing(Card(0, "Present")) && IsOngoing(Card(0, "PRESENT"))
    ensures !IsOngoing(Card(0, "2024-05-01")) && !IsOngoing(Card(0, "presently"))
  {
  }

  // ---------------------------------------------------------------------------
  // `applyFilter`

  /** `hide`: the checkbox is on and the card is not ongoing. */
  predicate Hidden(ongoingOnly: bool, c: Card) {
    if ongoingOnly then !IsOngoing(c) else false
  }

  /** The four style writes made on each card. */
  datatype CardStyle = CardStyle(opacity: int, scaled: bool, ariaHidden: string, displayNone: bool)

  const Shown := CardStyle(1, false, "false", false)
  const Concealed := CardStyle(0, true, "true", true)

  function StyleFor(hidden: bool): CardStyle {
    if hidden then Concealed else Shown
  }

  /** The styles `applyFilter` writes, card by card. An absent checkbox counts
      as unchecked. */
  function ApplyFilter(cards: seq<Card>, ongoingOnly: bool): (r: seq<CardStyle>)
    ensures |r| == |cards|
    ensures forall i :: 0 <= i < |cards| ==>
              (r[i].displayNone <==> ongoingOnly && !IsOngoing(cards[i])) &&
              (r[i].ariaHidden == "true" <==> r[i].displayNone) &&
              (r[i] == Shown || r[i] == Concealed)
  {
    seq(|cards|, i requires 0 <= i < |cards| => StyleFor(Hidden(ongoingOnly, cards[i])))
  }

  /** With the checkbox off every card is shown; with it on, exactly the
      ongoing cards are. */
  lemma FilterShowsExactlyOngoing(cards: seq<Card>, ongoingOnly: bool)
    ensures !ongoingOnly ==> forall i :: 0 <= i < |cards| ==> ApplyFilter(cards, ongoingOnly)[i] == Shown
    ensures ongoingOnly ==> forall i :: 0 <= i < |cards| ==>
              (ApplyFilter(cards, ongoingOnly)[i] == Shown <==> IsOngoing(cards[i]))
  {
  }

  // ---------------------------------------------------------------------------
  // `sortProjects` comparators

  datatype SortMode = Newest | Oldest | Nearest | OngoingFirst | Unknown

  /** The comparator table lookup; any other select value falls to the
      constant-zero comparator. */
  function ParseMode(s: string): (m: SortMode)
    ensures m == Unknown <==> s !in {"newest", "oldest", "nearest", "ongoingfirst"}
    ensures s == "newest" ==> m == Newest
    ensures s == "oldest" ==> m == Oldest
    ensures s == "nearest" ==> m == Nearest
    ensures s == "ongoingfirst" ==> m == OngoingFirst
  {
    if s == "newest" then Newest
    else if s == "oldest" then Oldest
    else if s == "nearest" then Nearest
    else if s == "ongoingfirst" then OngoingFirst
    else Unknown
  }

  function Abs(x: int): nat {
    if x < 0 then -x else x
  }

  /** The comparator for `mode`; negative puts `a` first, positive puts `b`
      first. `today` is the clock reading taken once per sort. */
  function Compare(mode: SortMode, today: int, a: Card, b: Card): (r: int)
    ensures mode == Newest ==> (r <= 0 <==> a.start >= b.start)
    ensures mode == Oldest ==> (r <= 0 <==> a.start <= b.start)
    ensures mode == Nearest ==> (r <= 0 <==> Abs(today - a.start) <= Abs(today - b.start))
    ensures mode == OngoingFirst && IsOngoing(a) && !IsOngoing(b) ==> r < 0
    ensures mode == OngoingFirst && IsOngoing(a) == IsOngoing(b) ==> (r <= 0 <==> a.start >= b.start)
    ensures mode == Unknown ==> r == 0
  {
    match mode
    case Newest => b.start - a.start
    case Oldest => a.start - b.start
    case Nearest => Abs(today - a.start) - Abs(today - b.start)
    case OngoingFirst =>
      var ao, bo := IsOngoing(a), IsOngoing(b);
      if ao != bo then (if ao then -1 else 1) else b.start - a.start
    case Unknown => 0
  }

  /** Swapping the arguments negates every comparator, so each one is
      consistent in the sense `Array.prototype.sort` asks for. */
  lemma CompareAntisymmetric(mode: SortMode, today: int, a: Card, b: Card)
    ensures Compare(mode, today, a, b) == -Compare(mode, today, b, a)
  {
  }

  /** "Not after" is transitive for every comparator. */
  lemma CompareTransitive(mode: SortMode, today: int, a: Card, b: Card, c: Card)
    requires Compare(mode, today, a, b) <= 0 && Compare(mode, today, b, c) <= 0
    ensures Compare(mode, today, a, c) <= 0
  {
  }

  // ---------------------------------------------------------------------------
  // Sorting

  /** Every card comes no later than every card after it. */
  predicate Sorted(mode: SortMode, today: int, s: seq<Card>) {
    forall i, j :: 0 <= i < j < |s| ==> Compare(mode, today, s[i], s[j]) <= 0
  }

  /** `x` may be placed before every card of `s`. */
  predicate NotAfterAny(mode: SortMode, today: int, x: Card, s: seq<Card>) {
    forall k :: 0 <= k < |s| ==> Compare(mode, today, x, s[k]) <= 0
  }

  lemma NotAfterAnyPermutation(mode: SortMode, today: int, x: Card, s: seq<Card>, t: seq<Card>)
    requires NotAfterAny(mode, today, x, s) && multiset(s) == multiset(t)
    ensures NotAfterAny(mode, today, x, t)
  {
    forall k | 0 <= k < |t|
      ensures Compare(mode, today, x, t[k]) <= 0
    {
      assert t[k] in multiset(t);
      var k' :| 0 <= k' < |s| && s[k'] == t[k];
    }
  }

  lemma PrependSorted(mode: SortMode, today: int, x: Card, s: seq<Card>)
    requires Sorted(mode, today, s) && NotAfterAny(mode, today, x, s)
    ensures Sorted(mode, today, [x] + s)
  {
  }

  /** Insert `x` in front of the first card it is not after. */
  function Insert(mode: SortMode, today: int, x: Card, s: seq<Card>): (r: seq<Card>)
    requires Sorted(mode, today, s)
    ensures Sorted(mode, today, r)
    ensures multiset(r) == multiset(s) + multiset{x}
    decreases |s|
  {
    if |s| == 0 then [x]
    else if Compare(mode, today, x, s[0]) <= 0 then
      InsertInFront(mode, today, x, s);
      [x] + s
    else
      SortedTail(mode, today, s);
      var rest := Insert(mode, today, x, s[1..]);
      InsertBehind(mode, today, x, s, rest);
      [s[0]] + rest
  }

  lemma InsertInFront(mode: SortMode, today: int, x: Card, s: seq<Card>)
    requires Sorted(mode, today, s) && |s| > 0 && Compare(mode, today, x, s[0]) <= 0
    ensures Sorted(mode, today, [x] + s)
  {
  }

  lemma SortedTail(mode: SortMode, today: int, s: seq<Card>)
    requires Sorted(mode, today, s) && |s| > 0
    ensures Sorted(mode, today, s[1..])
  {
    forall i, j | 0 <= i < j < |s| - 1
      ensures Compare(mode, today, s[1..][i], s[1..][j]) <= 0
    {
      assert s[1..][i] == s[i + 1] && s[1..][j] == s[j + 1];
    }
  }

  lemma InsertBehind(mode: SortMode, today: int, x: Card, s: seq<Card>, rest: seq<Card>)
    requires Sorted(mode, today, s) && |s| > 0 && Compare(mode, today, x, s[0]) > 0
    requires Sorted(mode, today, rest) && multiset(rest) == multiset(s[1..]) + multiset{x}
    ensures Sorted(mode, today, [s[0]] + rest)
    ensures multiset([s[0]] + rest) == multiset(s) + multiset{x}
  {
    assert s == [s[0]] + s[1..];
    var others := s[1..] + [x];
    CompareAntisymmetric(mode, today, x, s[0]);
    forall k | 0 <= k < |others|
      ensures Compare(mode, today, s[0], others[k]) <= 0
    {
      if k < |s| - 1 {
        assert others[k] == s[k + 1];
      }
    }
    NotAfterAnyPermutation(mode, today, s[0], others, rest);
    PrependSorted(mode, today, s[0], rest);
  }

  /** `cards.sort(cmp)`: the cards rearranged into comparator order. */
  function SortProjects(mode: SortMode, today: int, cards: seq<Card>): (r: seq<Card>)
    ensures Sorted(mode, today, r)
    ensures multiset(r) == multiset(cards)
    decreases |cards|
  {
    if |cards| == 0 then []
    else
      assert cards == [cards[0]] + cards[1..];
      Insert(mode, today, cards[0], SortProjects(mode, today, cards[1..]))
  }

  /** After sorting "ongoing first", every ongoing card precedes every
      finished one, and cards of equal status run newest first. */
  lemma OngoingFirstOrder(today: int, cards: seq<Card>)
    ensures var r := SortProjects(OngoingFirst, today, cards);
            forall i, j :: 0 <= i < j < |r| ==>
              (IsOngoing(r[j]) ==> IsOngoing(r[i])) &&
              (IsOngoing(r[i]) == IsOngoing(r[j]) ==> r[i].start >= r[j].start)
  {
  }

  /** "Newest" leaves start dates non-increasing, "oldest" non-decreasing. */
  lemma NewestOldestOrder(today: int, cards: seq<Card>)
    ensures var r := SortProjects(Newest, today, cards);
            forall i, j :: 0 <= i < j < |r| ==> r[i].start >= r[j].start
    ensures var r := SortProjects(Oldest, today, cards);
            forall i, j :: 0 <= i < j < |r| ==> r[i].start <= r[j].start
  {
  }

  /** "Nearest" puts cards whose start is closer to today first. */
  lemma NearestOrder(today: int, cards: seq<Card>)
    ensures var r := SortProjects(Nearest, today, cards);
            forall i, j :: 0 <= i < j < |r| ==> Abs(today - r[i].start) <= Abs(today - r[j].start)
  {
  }

  lemma InsertUnknownInFront(today: int, x: Card, s: seq<Card>)
    requires Sorted(Unknown, today, s)
    ensures Insert(Unknown, today, x, s) == [x] + s
  {
  }

  /** An unknown sort mode compares everything as equal, so the grid keeps
      its order. */
  lemma {:induction false} UnknownModeKeepsOrder(today: int, cards: seq<Card>)
    ensures SortProjects(Unknown, today, cards) == cards
    decreases |cards|
  {
    if |cards| > 0 {
      UnknownModeKeepsOrder(today, cards[1..]);
      InsertUnknownInFront(today, cards[0], cards[1..]);
      assert cards == [cards[0]] + cards[1..];
    }
  }
}
