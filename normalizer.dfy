/** normalizeValidRoomName (functions/src/api.ts:32-39): the regular expression
      (?<campus>BZ|BX)*\s*(?<building>[A-Z])*\s*(?<room>[0-9]\.*[0-9]+)
    run with RegExp.prototype.exec, i.e. unanchored, trying start positions
    from left to right, with JavaScript's backtracking semantics: a greedy
    quantifier first tries one more iteration and falls back to its
    continuation, and a group inside a quantifier keeps its last iteration. */
module Normalizer {
  import opened Types

  predicate IsDigit(c: char) { '0' <= c <= '9' }

  predicate IsUpper(c: char) { 'A' <= c <= 'Z' }

  /** JavaScript's \s without the u flag: WhiteSpace and LineTerminator code points. */
  predicate IsSpace(c: char) {
    c == '\t' || c == '\n' || c == '\U{B}' || c == '\U{C}' || c == '\r' || c == ' ' ||
    c == '\U{A0}' || c == '\U{1680}' || ('\U{2000}' <= c <= '\U{200A}') ||
    c == '\U{2028}' || c == '\U{2029}' || c == '\U{202F}' || c == '\U{205F}' ||
    c == '\U{3000}' || c == '\U{FEFF}'
  }

  /** One iteration of (BZ|BX) matches at position i. */
  predicate CampusAt(s: string, i: nat) {
    i + 2 <= |s| && s[i] == 'B' && (s[i + 1] == 'Z' || s[i + 1] == 'X')
  }

  /** The boundaries of one successful match: [start, campusEnd) holds the
      campus iterations, [campusEnd, blankEnd) the first \s*, [blankEnd,
      buildingEnd) the building iterations, [buildingEnd, roomStart) the second
      \s*, [roomStart, roomEnd) the room group. */
  datatype Match = Match(start: nat, campusEnd: nat, blankEnd: nat, buildingEnd: nat, roomStart: nat, roomEnd: nat)

  // ---------------------------------------------------------------------------
  // The backtracking engine, one function per element of the pattern.
  // ---------------------------------------------------------------------------

  /** (?<campus>BZ|BX)* at position i of a match that started at p. */
  function CampusStar(s: string, p: nat, i: nat): Option<Match>
    requires p <= i <= |s|
    decreases |s| - i
  {
    var more := if CampusAt(s, i) then CampusStar(s, p, i + 2) else None;
    if more.Some? then more else BlankOne(s, p, i, i)
  }

  /** The first \s*; the campus iterations ended at c. */
  function BlankOne(s: string, p: nat, c: nat, i: nat): Option<Match>
    requires p <= c <= i <= |s|
    decreases |s| - i
  {
    var more := if i < |s| && IsSpace(s[i]) then BlankOne(s, p, c, i + 1) else None;
    if more.Some? then more else BuildingStar(s, p, c, i, i)
  }

  /** (?<building>[A-Z])*; the first blank run ended at w. */
  function BuildingStar(s: string, p: nat, c: nat, w: nat, i: nat): Option<Match>
    requires p <= c <= w <= i <= |s|
    decreases |s| - i
  {
    var more := if i < |s| && IsUpper(s[i]) then BuildingStar(s, p, c, w, i + 1) else None;
    if more.Some? then more else BlankTwo(s, p, c, w, i, i)
  }

  /** The second \s*; the building iterations ended at b. */
  function BlankTwo(s: string, p: nat, c: nat, w: nat, b: nat, i: nat): Option<Match>
    requires p <= c <= w <= b <= i <= |s|
    decreases |s| - i
  {
    var more := if i < |s| && IsSpace(s[i]) then BlankTwo(s, p, c, w, b, i + 1) else None;
    if more.Some? then more else RoomDigit(s, p, c, w, b, i)
  }

  /** The leading [0-9] of the room group, which starts at r. */
  function RoomDigit(s: string, p: nat, c: nat, w: nat, b: nat, r: nat): Option<Match>
    requires p <= c <= w <= b <= r <= |s|
  {
    if r < |s| && IsDigit(s[r]) then PeriodStar(s, p, c, w, b, r, r + 1) else None
  }

  /** \.* inside the room group. */
  function PeriodStar(s: string, p: nat, c: nat, w: nat, b: nat, r: nat, i: nat): Option<Match>
    requires p <= c <= w <= b <= r < i <= |s|
    decreases |s| - i
  {
    var more := if i < |s| && s[i] == '.' then PeriodStar(s, p, c, w, b, r, i + 1) else None;
    if more.Some? then more else DigitPlus(s, p, c, w, b, r, i)
  }

  /** [0-9]+ inside the room group: one digit, then [0-9]*. */
  function DigitPlus(s: string, p: nat, c: nat, w: nat, b: nat, r: nat, i: nat): Option<Match>
    requires p <= c <= w <= b <= r < i <= |s|
  {
    if i < |s| && IsDigit(s[i]) then DigitStar(s, p, c, w, b, r, i + 1) else None
  }

  /** [0-9]* ending the pattern: once it stops, the whole match succeeds. */
  function DigitStar(s: string, p: nat, c: nat, w: nat, b: nat, r: nat, i: nat): Option<Match>
    requires p <= c <= w <= b <= r < i <= |s|
    decreases |s| - i
  {
    var more := if i < |s| && IsDigit(s[i]) then DigitStar(s, p, c, w, b, r, i + 1) else None;
    if more.Some? then more else Some(Match(p, c, w, b, r, i))
  }

  /** RegExp.prototype.exec without the g flag: the first start position, from
      p on, at which the pattern matches. */
  function Exec(s: string, p: nat): Option<Match>
    requires p <= |s|
    decreases |s| - p
  {
    var m := CampusStar(s, p, p);
    if m.Some? then m else if p == |s| then None else Exec(s, p + 1)
  }

  /** The Room built from the groups of a match: a group that did not
      participate is undefined, and `undefined || d` is d. */
  function RoomOf(s: string, m: Match): Room
    requires m.campusEnd <= |s| && m.buildingEnd <= |s| && m.roomStart <= m.roomEnd <= |s|
  {
    Room(if m.start + 2 <= m.campusEnd then s[m.campusEnd - 2 .. m.campusEnd] else "BZ",
         if m.blankEnd < m.buildingEnd then [s[m.buildingEnd - 1]] else "",
         s[m.roomStart .. m.roomEnd])
  }

  // ---------------------------------------------------------------------------
  // What a match is, independently of the engine.
  // ---------------------------------------------------------------------------

  /** s[i..j] has the shape [0-9]\.*[0-9]+, its trailing digits starting at k. */
  ghost predicate TokenSplit(s: string, i: nat, k: nat, j: nat) {
    i < k < j <= |s| && IsDigit(s[i]) &&
    (forall q | i < q < k :: s[q] == '.') &&
    (forall q | k <= q < j :: IsDigit(s[q]))
  }

  /** s[i..j] is a room number. */
  ghost predicate TokenAt(s: string, i: nat, j: nat) {
    exists k: nat :: TokenSplit(s, i, k, j)
  }

  /** A whole string is a room number. */
  ghost predicate RoomNumber(t: string) {
    TokenAt(t, 0, |t|)
  }

  /** Some substring of s is a room number. */
  ghost predicate HasRoomNumber(s: string) {
    exists i: nat, j: nat :: TokenAt(s, i, j)
  }

  /** s[i..j] is the leftmost room number of s, taken as long as possible. */
  ghost predicate FirstLongest(s: string, i: nat, j: nat) {
    TokenAt(s, i, j) &&
    (forall i': nat, j': nat | i' < i :: !TokenAt(s, i', j')) &&
    (forall j': nat | j < j' :: !TokenAt(s, i, j'))
  }

  ghost predicate CampusRun(s: string, p: nat, c: nat) {
    p <= c <= |s| && (c - p) % 2 == 0 &&
    forall q | p <= q < c && (q - p) % 2 == 0 :: CampusAt(s, q)
  }

  ghost predicate AllSpace(s: string, i: nat, j: nat) {
    i <= j <= |s| && forall q | i <= q < j :: IsSpace(s[q])
  }

  ghost predicate AllUpper(s: string, i: nat, j: nat) {
    i <= j <= |s| && forall q | i <= q < j :: IsUpper(s[q])
  }

  /** s[p..r) is matched by (BZ|BX)*\s*([A-Z])*\s* with the given boundaries. */
  ghost predicate Prefix(s: string, p: nat, c: nat, w: nat, b: nat, r: nat) {
    CampusRun(s, p, c) && AllSpace(s, c, w) && AllUpper(s, w, b) && AllSpace(s, b, r)
  }

  /** A match of the whole pattern whose room group is as long as it can be. */
  ghost predicate Sound(s: string, m: Match) {
    Prefix(s, m.start, m.campusEnd, m.blankEnd, m.buildingEnd, m.roomStart) &&
    TokenAt(s, m.roomStart, m.roomEnd) &&
    (forall j: nat | m.roomEnd < j :: !TokenAt(s, m.roomStart, j))
  }

  /** A room as the normaliser can produce it. */
  ghost predicate ValidRoom(room: Room) {
    (room.campus == "BZ" || room.campus == "BX") &&
    (room.building == "" || (|room.building| == 1 && IsUpper(room.building[0]))) &&
    RoomNumber(room.name)
  }

  /** normalizeValidRoomName. */
  function NormalizeValidRoomName(room: string): (r: Option<Room>)
    ensures r.Some? ==> ValidRoom(r.value)
  {
    ExecSound(room, 0);
    match Exec(room, 0)
    case None => None
    case Some(m) =>
      RoomOfValid(room, m);
      Some(RoomOf(room, m))
  }

  // ---------------------------------------------------------------------------
  // The room group in closed form.
  // ---------------------------------------------------------------------------

  function PeriodEnd(s: string, i: nat): (e: nat)
    requires i <= |s|
    ensures i <= e <= |s| && (e == |s| || s[e] != '.')
    ensures forall q | i <= q < e :: s[q] == '.'
    decreases |s| - i
  {
    if i < |s| && s[i] == '.' then PeriodEnd(s, i + 1) else i
  }

  function DigitEnd(s: string, i: nat): (e: nat)
    requires i <= |s|
    ensures i <= e <= |s| && (e == |s| || !IsDigit(s[e]))
    ensures forall q | i <= q < e :: IsDigit(s[q])
    decreases |s| - i
  {
    if i < |s| && IsDigit(s[i]) then DigitEnd(s, i + 1) else i
  }

  /** Where the greedy room token starting at r ends, if one starts there. */
  function RoomEnd(s: string, r: nat): Option<nat>
    requires r <= |s|
  {
    if r < |s| && IsDigit(s[r]) then
      var k := PeriodEnd(s, r + 1);
      if k < |s| && IsDigit(s[k]) then Some(DigitEnd(s, k + 1)) else None
    else None
  }

  lemma {:induction false} DigitStarClosed(s: string, p: nat, c: nat, w: nat, b: nat, r: nat, i: nat)
    requires p <= c <= w <= b <= r < i <= |s|
    ensures DigitStar(s, p, c, w, b, r, i) == Some(Match(p, c, w, b, r, DigitEnd(s, i)))
    decreases |s| - i
  {
    if i < |s| && IsDigit(s[i]) {
      DigitStarClosed(s, p, c, w, b, r, i + 1);
    }
  }

  lemma {:induction false} PeriodStarClosed(s: string, p: nat, c: nat, w: nat, b: nat, r: nat, i: nat)
    requires p <= c <= w <= b <= r < i <= |s|
    ensures var k := PeriodEnd(s, i);
      PeriodStar(s, p, c, w, b, r, i) ==
        if k < |s| && IsDigit(s[k]) then Some(Match(p, c, w, b, r, DigitEnd(s, k + 1))) else None
    decreases |s| - i
  {
    if i < |s| && s[i] == '.' {
      PeriodStarClosed(s, p, c, w, b, r, i + 1);
    } else if i < |s| && IsDigit(s[i]) {
      DigitStarClosed(s, p, c, w, b, r, i + 1);
    }
  }

  /** The engine's room group is the greedy token. */
  lemma RoomDigitClosed(s: string, p: nat, c: nat, w: nat, b: nat, r: nat)
    requires p <= c <= w <= b <= r <= |s|
    ensures RoomDigit(s, p, c, w, b, r) ==
      match RoomEnd(s, r)
      case None => None
      case Some(e) => Some(Match(p, c, w, b, r, e))
  {
    if r < |s| && IsDigit(s[r]) {
      PeriodStarClosed(s, p, c, w, b, r, r + 1);
    }
  }

  /** The greedy token is a room number, the longest one starting at r, and
      it exists whenever some room number starts at r. */
  lemma RoomEndSpec(s: string, r: nat)
    requires r <= |s|
    ensures RoomEnd(s, r).Some? <==> exists j: nat :: TokenAt(s, r, j)
    ensures RoomEnd(s, r).Some? ==> TokenAt(s, r, RoomEnd(s, r).value)
    ensures RoomEnd(s, r).Some? ==> forall j: nat | RoomEnd(s, r).value < j :: !TokenAt(s, r, j)
  {
    forall j: nat | TokenAt(s, r, j)
      ensures RoomEnd(s, r).Some? && j <= RoomEnd(s, r).value
    {
      TokenEndBound(s, r, j);
    }
    if RoomEnd(s, r).Some? {
      var k := PeriodEnd(s, r + 1);
      var e := DigitEnd(s, k + 1);
      assert TokenSplit(s, r, k, e);
      assert TokenAt(s, r, e);
    }
  }

  /** A room number starting at r ends no later than the greedy token. */
  lemma TokenEndBound(s: string, r: nat, j: nat)
    requires TokenAt(s, r, j)
    ensures r < |s| && RoomEnd(s, r).Some? && j <= RoomEnd(s, r).value
  {
    var k': nat :| TokenSplit(s, r, k', j);
    var k := PeriodEnd(s, r + 1);
    TokenSplitAt(s, r, k, k', j);
  }

  /** In a room number starting at r the trailing digits start where the
      periods after the first digit stop. */
  lemma TokenSplitAt(s: string, r: nat, k: nat, k': nat, j: nat)
    requires r < |s| && k == PeriodEnd(s, r + 1)
    requires TokenSplit(s, r, k', j)
    ensures k' == k
  {
    assert s[k'] != '.';
    assert k < |s| ==> s[k] != '.';
  }

  // ---------------------------------------------------------------------------
  // Soundness: every result of the engine is a match of the pattern.
  // ---------------------------------------------------------------------------

  lemma RoomDigitSound(s: string, p: nat, c: nat, w: nat, b: nat, r: nat)
    requires Prefix(s, p, c, w, b, r)
    ensures RoomDigit(s, p, c, w, b, r).Some? ==>
      var m := RoomDigit(s, p, c, w, b, r).value;
      Sound(s, m) && m.start == p && m.campusEnd == c && m.blankEnd == w && m.buildingEnd == b
  {
    RoomDigitClosed(s, p, c, w, b, r);
    RoomEndSpec(s, r);
  }

  lemma {:induction false} BlankTwoSound(s: string, p: nat, c: nat, w: nat, b: nat, i: nat)
    requires Prefix(s, p, c, w, b, i)
    ensures BlankTwo(s, p, c, w, b, i).Some? ==>
      var m := BlankTwo(s, p, c, w, b, i).value;
      Sound(s, m) && m.start == p &&
      m.campusEnd == c && m.blankEnd == w && m.buildingEnd == b
    decreases |s| - i
  {
    if i < |s| && IsSpace(s[i]) {
      BlankTwoSound(s, p, c, w, b, i + 1);
    }
    RoomDigitSound(s, p, c, w, b, i);
  }

  lemma {:induction false} BuildingStarSound(s: string, p: nat, c: nat, w: nat, i: nat)
    requires Prefix(s, p, c, w, i, i)
    ensures BuildingStar(s, p, c, w, i).Some? ==>
      var m := BuildingStar(s, p, c, w, i).value;
      Sound(s, m) && m.start == p &&
      m.campusEnd == c && m.blankEnd == w && i <= m.buildingEnd
    decreases |s| - i
  {
    if i < |s| && IsUpper(s[i]) {
      BuildingStarSound(s, p, c, w, i + 1);
    }
    BlankTwoSound(s, p, c, w, i, i);
  }

  lemma {:induction false} BlankOneSound(s: string, p: nat, c: nat, i: nat)
    requires Prefix(s, p, c, i, i, i)
    ensures BlankOne(s, p, c, i).Some? ==>
      var m := BlankOne(s, p, c, i).value;
      Sound(s, m) && m.start == p &&
      m.campusEnd == c && i <= m.blankEnd
    decreases |s| - i
  {
    if i < |s| && IsSpace(s[i]) {
      BlankOneSound(s, p, c, i + 1);
    }
    BuildingStarSound(s, p, c, i, i);
  }

  lemma {:induction false} CampusStarSound(s: string, p: nat, i: nat)
    requires CampusRun(s, p, i)
    ensures CampusStar(s, p, i).Some? ==>
      var m := CampusStar(s, p, i).value; Sound(s, m) && m.start == p && i <= m.campusEnd
    decreases |s| - i
  {
    if CampusAt(s, i) {
      assert CampusRun(s, p, i + 2);
      CampusStarSound(s, p, i + 2);
    }
    BlankOneSound(s, p, i, i);
  }

  /** No digit lies before the room group of a match. */
  lemma PrefixHasNoDigit(s: string, p: nat, c: nat, w: nat, b: nat, r: nat, q: nat)
    requires Prefix(s, p, c, w, b, r) && p <= q < r
    ensures !IsDigit(s[q])
  {
    if q < c {
      if (q - p) % 2 == 0 {
        assert CampusAt(s, q);
      } else {
        assert CampusAt(s, q - 1);
      }
    }
  }

  // ---------------------------------------------------------------------------
  // Completeness and greed: the engine finds a match whenever the pattern can
  // match at p, and of all the ways to split the text before the room group
  // it takes the one with the longest campus run, then the longest first
  // blank run, then the longest building run.
  // ---------------------------------------------------------------------------

  /** The pattern matches at p with the given boundaries. */
  ghost predicate MatchesWith(s: string, p: nat, c: nat, w: nat, b: nat, r: nat, j: nat) {
    Prefix(s, p, c, w, b, r) && TokenAt(s, r, j)
  }

  /** No match of the pattern starts in [p, q). */
  ghost predicate NoMatchBetween(s: string, p: nat, q: nat) {
    forall p': nat, c: nat, w: nat, b: nat, r: nat, j: nat | p <= p' < q :: !MatchesWith(s, p', c, w, b, r, j)
  }

  /** (c, w, b) does not come after the split of m in lexicographic order. */
  predicate SplitAtMost(c: nat, w: nat, b: nat, m: Match) {
    c < m.campusEnd || (c == m.campusEnd && (w < m.blankEnd || (w == m.blankEnd && b <= m.buildingEnd)))
  }

  /** The split of m is the greatest one that reaches its room group. */
  ghost predicate Greedy(s: string, m: Match) {
    forall c: nat, w: nat, b: nat | Prefix(s, m.start, c, w, b, m.roomStart) :: SplitAtMost(c, w, b, m)
  }

  lemma {:induction false} BlankTwoComplete(s: string, p: nat, c: nat, w: nat, b: nat, i: nat, r: nat, j: nat)
    requires MatchesWith(s, p, c, w, b, r, j) && b <= i <= r
    ensures BlankTwo(s, p, c, w, b, i).Some?
    decreases r - i
  {
    if i < r {
      BlankTwoComplete(s, p, c, w, b, i + 1, r, j);
    } else {
      RoomDigitClosed(s, p, c, w, b, r);
      RoomEndSpec(s, r);
    }
  }

  lemma {:induction false} BuildingStarComplete(s: string, p: nat, c: nat, w: nat, i: nat, b: nat, r: nat, j: nat)
    requires MatchesWith(s, p, c, w, b, r, j) && w <= i <= b
    ensures BuildingStar(s, p, c, w, i).Some?
    decreases b - i
  {
    if i < b {
      BuildingStarComplete(s, p, c, w, i + 1, b, r, j);
    } else {
      BlankTwoComplete(s, p, c, w, b, b, r, j);
    }
  }

  lemma {:induction false} BlankOneComplete(s: string, p: nat, c: nat, i: nat, w: nat, b: nat, r: nat, j: nat)
    requires MatchesWith(s, p, c, w, b, r, j) && c <= i <= w
    ensures BlankOne(s, p, c, i).Some?
    decreases w - i
  {
    if i < w {
      BlankOneComplete(s, p, c, i + 1, w, b, r, j);
    } else {
      BuildingStarComplete(s, p, c, w, w, b, r, j);
    }
  }

  /** Backtracking finds a match at p whenever there is one. */
  lemma {:induction false} CampusStarComplete(s: string, p: nat, i: nat, c: nat, w: nat, b: nat, r: nat, j: nat)
    requires MatchesWith(s, p, c, w, b, r, j) && p <= i <= c && (i - p) % 2 == 0
    ensures CampusStar(s, p, i).Some?
    decreases c - i
  {
    if i < c {
      assert CampusAt(s, i);
      CampusStarComplete(s, p, i + 2, c, w, b, r, j);
    } else {
      BlankOneComplete(s, p, c, c, w, b, r, j);
    }
  }

  lemma {:induction false} BuildingStarMax(s: string, p: nat, c: nat, w: nat, i: nat)
    requires Prefix(s, p, c, w, i, i) && BuildingStar(s, p, c, w, i).Some?
    ensures var m := BuildingStar(s, p, c, w, i).value;
      forall b: nat | i <= b && Prefix(s, p, c, w, b, m.roomStart) :: b <= m.buildingEnd
    decreases |s| - i
  {
    var m := BuildingStar(s, p, c, w, i).value;
    BuildingStarSound(s, p, c, w, i);
    var more := if i < |s| && IsUpper(s[i]) then BuildingStar(s, p, c, w, i + 1) else None;
    if more.Some? {
      BuildingStarMax(s, p, c, w, i + 1);
      BuildingStarSound(s, p, c, w, i + 1);
    } else {
      // the building run cannot go on: s[i] opens the second blank run
      BlankTwoSound(s, p, c, w, i, i);
    }
  }

  lemma {:induction false} BlankOneMax(s: string, p: nat, c: nat, i: nat)
    requires Prefix(s, p, c, i, i, i) && BlankOne(s, p, c, i).Some?
    ensures var m := BlankOne(s, p, c, i).value;
      forall w: nat, b: nat | i <= w && Prefix(s, p, c, w, b, m.roomStart) ::
        w < m.blankEnd || (w == m.blankEnd && b <= m.buildingEnd)
    decreases |s| - i
  {
    var m := BlankOne(s, p, c, i).value;
    BlankOneSound(s, p, c, i);
    var more := if i < |s| && IsSpace(s[i]) then BlankOne(s, p, c, i + 1) else None;
    if more.Some? {
      BlankOneMax(s, p, c, i + 1);
      BlankOneSound(s, p, c, i + 1);
    } else {
      BuildingStarSound(s, p, c, i, i);
      BuildingStarMax(s, p, c, i, i);
      forall w: nat, b: nat | i <= w && Prefix(s, p, c, w, b, m.roomStart)
        ensures w < m.blankEnd || (w == m.blankEnd && b <= m.buildingEnd)
      {
        if i < w {
          BlankOneComplete(s, p, c, i + 1, w, b, m.roomStart, m.roomEnd);
        }
      }
    }
  }

  lemma {:induction false} CampusStarMax(s: string, p: nat, i: nat)
    requires CampusRun(s, p, i) && CampusStar(s, p, i).Some?
    ensures var m := CampusStar(s, p, i).value;
      forall c: nat, w: nat, b: nat | i <= c && Prefix(s, p, c, w, b, m.roomStart) :: SplitAtMost(c, w, b, m)
    decreases |s| - i
  {
    var m := CampusStar(s, p, i).value;
    CampusStarSound(s, p, i);
    var more := if CampusAt(s, i) then CampusStar(s, p, i + 2) else None;
    if more.Some? {
      assert CampusRun(s, p, i + 2);
      CampusStarMax(s, p, i + 2);
      CampusStarSound(s, p, i + 2);
    } else {
      BlankOneSound(s, p, i, i);
      BlankOneMax(s, p, i, i);
      forall c: nat, w: nat, b: nat | i <= c && Prefix(s, p, c, w, b, m.roomStart)
        ensures SplitAtMost(c, w, b, m)
      {
        if i < c {
          assert CampusAt(s, i);
          CampusStarComplete(s, p, i + 2, c, w, b, m.roomStart, m.roomEnd);
        }
      }
    }
  }

  /** At a position where a room number starts, the pattern matches. */
  lemma MatchAtToken(s: string, i: nat, j: nat)
    requires TokenAt(s, i, j)
    ensures CampusStar(s, i, i).Some?
  {
    var k: nat :| TokenSplit(s, i, k, j);
    assert CampusStar(s, i, i) == BlankOne(s, i, i, i) == BuildingStar(s, i, i, i, i)
      == BlankTwo(s, i, i, i, i, i) == RoomDigit(s, i, i, i, i, i);
    RoomDigitClosed(s, i, i, i, i, i);
    RoomEndSpec(s, i);
  }

  /** exec finds a match whenever a room number starts at or after p. */
  lemma {:induction false} ExecComplete(s: string, p: nat, i: nat, j: nat)
    requires p <= i && TokenAt(s, i, j)
    ensures Exec(s, p).Some?
    decreases i - p
  {
    if CampusStar(s, p, p).None? {
      if p == i {
        MatchAtToken(s, i, j);
      } else {
        ExecComplete(s, p + 1, i, j);
      }
    }
  }

  /** The match exec returns is a match of the pattern that starts at the
      first position from p on where the pattern matches, takes the greedy
      split before its room group, and no room number starts between p and
      its room group. */
  lemma {:induction false} ExecSound(s: string, p: nat)
    requires p <= |s|
    ensures Exec(s, p).Some? ==>
      var m := Exec(s, p).value;
      Sound(s, m) && Greedy(s, m) && p <= m.start && NoMatchBetween(s, p, m.start) &&
      forall i: nat, j: nat | p <= i < m.roomStart :: !TokenAt(s, i, j)
    decreases |s| - p
  {
    var here := CampusStar(s, p, p);
    CampusStarSound(s, p, p);
    if here.Some? {
      var m := here.value;
      CampusStarMax(s, p, p);
      forall i: nat, j: nat | p <= i < m.roomStart
        ensures !TokenAt(s, i, j)
      {
        PrefixHasNoDigit(s, m.start, m.campusEnd, m.blankEnd, m.buildingEnd, m.roomStart, i);
      }
    } else if p < |s| {
      ExecSound(s, p + 1);
      if Exec(s, p + 1).Some? {
        var m := Exec(s, p + 1).value;
        forall i: nat, j: nat | p <= i < m.roomStart
          ensures !TokenAt(s, i, j)
        {
          if i == p && TokenAt(s, i, j) {
            MatchAtToken(s, i, j);
          }
        }
        forall p': nat, c: nat, w: nat, b: nat, r: nat, j: nat | p <= p' < m.start
          ensures !MatchesWith(s, p', c, w, b, r, j)
        {
          if p' == p && MatchesWith(s, p', c, w, b, r, j) {
            CampusStarComplete(s, p, p, c, w, b, r, j);
          }
        }
      }
    }
  }

  /** At most one match is the leftmost, greedy one with the longest room
      group, so the properties ExecSound proves determine the result. */
  lemma MatchUnique(s: string, m1: Match, m2: Match)
    requires Sound(s, m1) && Greedy(s, m1) && NoMatchBetween(s, 0, m1.start)
    requires Sound(s, m2) && Greedy(s, m2) && NoMatchBetween(s, 0, m2.start)
    ensures m1 == m2
  {
    assert MatchesWith(s, m1.start, m1.campusEnd, m1.blankEnd, m1.buildingEnd, m1.roomStart, m1.roomEnd);
    assert MatchesWith(s, m2.start, m2.campusEnd, m2.blankEnd, m2.buildingEnd, m2.roomStart, m2.roomEnd);
    assert m1.start == m2.start;
    SameRoomStart(s, m1, m2);
    SameRoomStart(s, m2, m1);
    assert m1.roomStart == m2.roomStart;
    assert Prefix(s, m1.start, m2.campusEnd, m2.blankEnd, m2.buildingEnd, m1.roomStart);
    assert Prefix(s, m2.start, m1.campusEnd, m1.blankEnd, m1.buildingEnd, m2.roomStart);
    assert SplitAtMost(m2.campusEnd, m2.blankEnd, m2.buildingEnd, m1);
    assert SplitAtMost(m1.campusEnd, m1.blankEnd, m1.buildingEnd, m2);
  }

  /** Two matches from one start have their room groups at the same place. */
  lemma SameRoomStart(s: string, m1: Match, m2: Match)
    requires Sound(s, m1) && Sound(s, m2) && m1.start == m2.start
    ensures m1.roomStart <= m2.roomStart
  {
    var k: nat :| TokenSplit(s, m2.roomStart, k, m2.roomEnd);
    if m2.roomStart < m1.roomStart {
      PrefixHasNoDigit(s, m1.start, m1.campusEnd, m1.blankEnd, m1.buildingEnd, m1.roomStart, m2.roomStart);
    }
  }

  /** A room number inside s is a room number on its own. */
  lemma TokenSlice(s: string, i: nat, j: nat)
    requires TokenAt(s, i, j)
    ensures RoomNumber(s[i..j])
  {
    var k: nat :| TokenSplit(s, i, k, j);
    assert TokenSplit(s[i..j], 0, k - i, j - i);
  }

  lemma RoomOfValid(s: string, m: Match)
    requires Sound(s, m)
    ensures ValidRoom(RoomOf(s, m))
  {
    if m.start + 2 <= m.campusEnd {
      assert CampusAt(s, m.campusEnd - 2);
      var t := s[m.campusEnd - 2 .. m.campusEnd];
      assert t == [s[m.campusEnd - 2], s[m.campusEnd - 1]];
      assert t == "BZ" || t == "BX";
    }
    TokenSlice(s, m.roomStart, m.roomEnd);
  }

  // ---------------------------------------------------------------------------
  // What normalizeValidRoomName promises.
  // ---------------------------------------------------------------------------

  /** The result is null exactly when no substring is a room number. */
  lemma NormalizeNoneIff(location: string)
    ensures NormalizeValidRoomName(location).None? <==> !HasRoomNumber(location)
  {
    ExecSound(location, 0);
    if HasRoomNumber(location) {
      var i: nat, j: nat :| TokenAt(location, i, j);
      ExecComplete(location, 0, i, j);
    }
  }

  /** On success the name is the leftmost room number of the location, taken
      as long as possible; campus and building come from the match that starts
      at the first position where the pattern matches at all, split greedily:
      the longest run of BZ/BX, then the longest blank run, then the longest
      run of upper-case letters. The campus, if present, is the last BZ/BX of
      its run and the building the last letter of its run. By MatchUnique
      exactly one match has these properties. */
  lemma NormalizeMatch(location: string)
    requires NormalizeValidRoomName(location).Some?
    ensures var room := NormalizeValidRoomName(location).value;
      exists m :: Sound(location, m) && FirstLongest(location, m.roomStart, m.roomEnd) &&
        NoMatchBetween(location, 0, m.start) && Greedy(location, m) &&
        room == RoomOf(location, m) && room.name == location[m.roomStart..m.roomEnd]
  {
    ExecSound(location, 0);
    var m := Exec(location, 0).value;
    assert FirstLongest(location, m.roomStart, m.roomEnd);
  }

  /** The name is a room number: it starts and ends with a digit and holds
      only digits and periods. */
  lemma RoomNumberShape(t: string)
    requires RoomNumber(t)
    ensures |t| >= 2 && IsDigit(t[0]) && IsDigit(t[|t| - 1])
    ensures forall q | 0 <= q < |t| :: IsDigit(t[q]) || t[q] == '.'
  {
    var k: nat :| TokenSplit(t, 0, k, |t|);
  }

  // ---------------------------------------------------------------------------
  // Worked examples.
  // ---------------------------------------------------------------------------

  /** A string whose only digit, if any, is its last character holds no room number. */
  lemma NoRoomNumber(s: string)
    ensures (forall q | 0 <= q < |s| - 1 :: !IsDigit(s[q])) ==> !HasRoomNumber(s)
  {
    forall i: nat, j: nat | TokenAt(s, i, j)
      ensures i < |s| - 1 && IsDigit(s[i])
    {
      var k: nat :| TokenSplit(s, i, k, j);
    }
  }

  lemma ExampleNoRoom()
    ensures NormalizeValidRoomName("Lab") == None
    ensures NormalizeValidRoomName("") == None
    ensures NormalizeValidRoomName("5") == None
  {
    NoRoomNumber("Lab");
    NormalizeNoneIff("Lab");
    NoRoomNumber("");
    NormalizeNoneIff("");
    NoRoomNumber("5");
    NormalizeNoneIff("5");
  }

  lemma ExampleCampusBuildingName()
    ensures NormalizeValidRoomName("BZ E 2.08") == Some(Room("BZ", "E", "2.08"))
  {
    var s := "BZ E 2.08";
    var m := Match(0, 2, 3, 4, 5, 9);
    assert PeriodEnd(s, 7) == 7 && PeriodEnd(s, 6) == 7;
    assert DigitEnd(s, 9) == 9 && DigitEnd(s, 8) == 9;
    RoomDigitClosed(s, 0, 2, 3, 4, 5);
    assert RoomDigit(s, 0, 2, 3, 4, 5) == Some(m);
    assert BlankTwo(s, 0, 2, 3, 4, 5) == Some(m);
    assert BlankTwo(s, 0, 2, 3, 4, 4) == Some(m);
    assert BuildingStar(s, 0, 2, 3, 4) == Some(m);
    assert BuildingStar(s, 0, 2, 3, 3) == Some(m);
    assert BlankOne(s, 0, 2, 3) == Some(m);
    assert BlankOne(s, 0, 2, 2) == Some(m);
    assert CampusStar(s, 0, 2) == Some(m);
    assert CampusStar(s, 0, 0) == Some(m);
    assert Exec(s, 0) == Some(m);
    assert s[0..2] == "BZ" && s[5..9] == "2.08";
  }

  lemma ExampleNameOnly()
    ensures NormalizeValidRoomName("3.05") == Some(Room("BZ", "", "3.05"))
  {
    var s := "3.05";
    var m := Match(0, 0, 0, 0, 0, 4);
    assert PeriodEnd(s, 2) == 2 && PeriodEnd(s, 1) == 2;
    assert DigitEnd(s, 4) == 4 && DigitEnd(s, 3) == 4;
    RoomDigitClosed(s, 0, 0, 0, 0, 0);
    assert CampusStar(s, 0, 0) == BlankOne(s, 0, 0, 0) == BuildingStar(s, 0, 0, 0, 0)
      == BlankTwo(s, 0, 0, 0, 0, 0) == RoomDigit(s, 0, 0, 0, 0, 0) == Some(m);
    assert Exec(s, 0) == Some(m);
    assert s[0..4] == s;
  }

  /** The match may start at the blank: the campus then defaults and the
      building is the last letter of "BZ". */
  lemma ExampleLeftmostQuirk()
    ensures NormalizeValidRoomName("A BZ 2.08") == Some(Room("BZ", "Z", "2.08"))
  {
    var s := "A BZ 2.08";
    // No match starts at the 'A'.
    assert RoomDigit(s, 0, 0, 0, 1, 2) == None && RoomDigit(s, 0, 0, 0, 1, 1) == None;
    assert BlankTwo(s, 0, 0, 0, 1, 2) == None;
    assert BlankTwo(s, 0, 0, 0, 1, 1) == None;
    assert BuildingStar(s, 0, 0, 0, 1) == None;
    assert RoomDigit(s, 0, 0, 0, 0, 0) == None;
    assert BlankTwo(s, 0, 0, 0, 0, 0) == None;
    assert BuildingStar(s, 0, 0, 0, 0) == None;
    assert BlankOne(s, 0, 0, 0) == None;
    assert CampusStar(s, 0, 0) == None;
    // One starts at the blank.
    var m := Match(1, 1, 2, 4, 5, 9);
    assert PeriodEnd(s, 7) == 7 && PeriodEnd(s, 6) == 7;
    assert DigitEnd(s, 9) == 9 && DigitEnd(s, 8) == 9;
    RoomDigitClosed(s, 1, 1, 2, 4, 5);
    assert RoomDigit(s, 1, 1, 2, 4, 5) == Some(m);
    assert BlankTwo(s, 1, 1, 2, 4, 5) == Some(m);
    assert BlankTwo(s, 1, 1, 2, 4, 4) == Some(m);
    assert BuildingStar(s, 1, 1, 2, 4) == Some(m);
    assert BuildingStar(s, 1, 1, 2, 3) == Some(m);
    assert BuildingStar(s, 1, 1, 2, 2) == Some(m);
    assert BlankOne(s, 1, 1, 2) == Some(m);
    assert BlankOne(s, 1, 1, 1) == Some(m);
    assert CampusStar(s, 1, 1) == Some(m);
    assert Exec(s, 1) == Some(m);
    assert Exec(s, 0) == Some(m);
    assert s[5..9] == "2.08";
  }

  /** Only one run of periods is allowed, right after the first digit. */
  lemma ExampleSecondPeriodStops()
    ensures NormalizeValidRoomName("12.3.4") == Some(Room("BZ", "", "12"))
  {
    var s := "12.3.4";
    var m := Match(0, 0, 0, 0, 0, 2);
    assert PeriodEnd(s, 1) == 1;
    assert DigitEnd(s, 2) == 2;
    RoomDigitClosed(s, 0, 0, 0, 0, 0);
    assert CampusStar(s, 0, 0) == BlankOne(s, 0, 0, 0) == BuildingStar(s, 0, 0, 0, 0)
      == BlankTwo(s, 0, 0, 0, 0, 0) == RoomDigit(s, 0, 0, 0, 0, 0) == Some(m);
    assert Exec(s, 0) == Some(m);
    assert s[0..2] == "12";
  }
}
