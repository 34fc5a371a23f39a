/** The shape of the parser's `reduce`: the callback runs at every row index
    but acts only at indices divisible by three, where it may contribute one
    element for the group of rows starting there. */
module StrideFold {
  import opened Wrappers

  function Emit<T>(o: Option<T>): seq<T> {
    match o
    case None => []
    case Some(x) => [x]
  }

  /** `Array.prototype.reduce` over `n` rows with accumulator `acc`, resumed
      at row `index`. */
  function Reduce<T>(n: nat, group: nat -> Option<T>, index: nat, acc: seq<T>): seq<T>
    requires index <= n
    decreases n - index
  {
    if index == n then acc
    else
      var acc' := if index % 3 == 0 then acc + Emit(group(index)) else acc;
      Reduce(n, group, index + 1, acc')
  }

  /** Reference definition: the contributions of groups `g, g + 1, ...`
      (group `g` starts at row `3 * g`), in group order. */
  function Groupwise<T>(n: nat, group: nat -> Option<T>, g: nat): seq<T>
    decreases n - 3 * g
  {
    if 3 * g >= n then []
    else Emit(group(3 * g)) + Groupwise(n, group, g + 1)
  }

  /** The left fold with an accumulator equals the group-by-group
      concatenation of the groups starting at or after `index`. */
  lemma {:induction false} ReduceIsGroupwise<T>(n: nat, group: nat -> Option<T>, index: nat, acc: seq<T>)
    requires index <= n
    ensures Reduce(n, group, index, acc) == acc + Groupwise(n, group, (index + 2) / 3)
    decreases n - index
  {
    if index == n {
      assert Groupwise(n, group, (index + 2) / 3) == [];
    } else if index % 3 == 0 {
      var g := index / 3;
      var acc' := acc + Emit(group(index));
      ReduceIsGroupwise(n, group, index + 1, acc');
      assert (index + 3) / 3 == g + 1 && (index + 2) / 3 == g;
      assert acc' + Groupwise(n, group, g + 1) == acc + (Emit(group(index)) + Groupwise(n, group, g + 1));
    } else {
      ReduceIsGroupwise(n, group, index + 1, acc);
      assert (index + 3) / 3 == (index + 2) / 3;
    }
  }

  /** The whole reduce, started with an empty accumulator, is the
      group-by-group concatenation of all groups. */
  lemma ReduceFromStart<T>(n: nat, group: nat -> Option<T>)
    ensures Reduce(n, group, 0, []) == Groupwise(n, group, 0)
  {
    ReduceIsGroupwise(n, group, 0, []);
    assert [] + Groupwise(n, group, 0) == Groupwise(n, group, 0);
  }

  /** At most one element per group: `ceil(n / 3) - g` groups remain. */
  lemma {:induction false} GroupwiseLength<T>(n: nat, group: nat -> Option<T>, g: nat)
    ensures |Groupwise(n, group, g)| <= if 3 * g >= n then 0 else (n + 2) / 3 - g
    decreases n - 3 * g
  {
    if 3 * g < n {
      GroupwiseLength(n, group, g + 1);
    }
  }

  /** The group indices (from `g` on) whose callback contributes, ascending. */
  function Contributing<T>(n: nat, group: nat -> Option<T>, g: nat): seq<nat>
    decreases n - 3 * g
  {
    if 3 * g >= n then []
    else (if group(3 * g).Some? then [g] else []) + Contributing(n, group, g + 1)
  }

  /** Every element comes from a contributing group at or after `g`. */
  lemma {:induction false} GroupwisePicks<T>(n: nat, group: nat -> Option<T>, g: nat)
    ensures |Contributing(n, group, g)| == |Groupwise(n, group, g)|
    ensures forall j :: 0 <= j < |Groupwise(n, group, g)| ==>
      var h := Contributing(n, group, g)[j];
      g <= h && 3 * h < n && group(3 * h) == Some(Groupwise(n, group, g)[j])
    decreases n - 3 * g
  {
    if 3 * g < n {
      GroupwisePicks(n, group, g + 1);
      var r, c := Groupwise(n, group, g + 1), Contributing(n, group, g + 1);
      match group(3 * g)
      case None =>
        assert Groupwise(n, group, g) == [] + r;
        assert Contributing(n, group, g) == [] + c;
      case Some(x) =>
        assert Groupwise(n, group, g) == [x] + r;
        assert Contributing(n, group, g) == [g] + c;
        forall j | 1 <= j < |r| + 1
          ensures ([g] + c)[j] == c[j - 1] && ([x] + r)[j] == r[j - 1]
        {
        }
    }
  }

  /** The contributing groups are listed in ascending order. */
  lemma {:induction false} ContributingIncrease<T>(n: nat, group: nat -> Option<T>, g: nat)
    ensures forall a, b :: 0 <= a < b < |Contributing(n, group, g)| ==>
      Contributing(n, group, g)[a] < Contributing(n, group, g)[b]
    decreases n - 3 * g
  {
    if 3 * g < n {
      ContributingIncrease(n, group, g + 1);
      GroupwisePicks(n, group, g + 1);
    }
  }

  /** Every contributing group at or after `g` is listed. */
  lemma {:induction false} ContributingComplete<T>(n: nat, group: nat -> Option<T>, g: nat)
    ensures forall h :: g <= h && 3 * h < n ==> (h in Contributing(n, group, g) <==> group(3 * h).Some?)
    decreases n - 3 * g
  {
    if 3 * g < n {
      ContributingComplete(n, group, g + 1);
      GroupwisePicks(n, group, g + 1);
    }
  }

  /** Every element comes from a contributing group at or after `g`, in
      ascending group order, and every contributing group is listed. */
  lemma GroupwiseTracesGroups<T>(n: nat, group: nat -> Option<T>, g: nat)
    ensures var r, gs := Groupwise(n, group, g), Contributing(n, group, g);
      && |gs| == |r|
      && (forall j :: 0 <= j < |r| ==> g <= gs[j] && 3 * gs[j] < n && group(3 * gs[j]) == Some(r[j]))
      && (forall a, b :: 0 <= a < b < |gs| ==> gs[a] < gs[b])
      && (forall h :: g <= h && 3 * h < n ==> (h in gs <==> group(3 * h).Some?))
  {
    GroupwisePicks(n, group, g);
    ContributingIncrease(n, group, g);
    ContributingComplete(n, group, g);
  }

  /** A property every contribution has, every element of the result has. */
  lemma {:induction false} GroupwiseAll<T>(n: nat, group: nat -> Option<T>, g: nat, P: T -> bool)
    requires forall i :: group(i).Some? ==> P(group(i).value)
    ensures forall j :: 0 <= j < |Groupwise(n, group, g)| ==> P(Groupwise(n, group, g)[j])
    decreases n - 3 * g
  {
    if 3 * g < n {
      GroupwiseAll(n, group, g + 1, P);
    }
  }
}

/** The fixture-table parser: the rows of the club's match-plan table are
    read in groups of three (spacer, date row, teams row) and each group
    yields at most one `Match`. */
module MatchesService {
  import opened Wrappers
  import opened Text
  import opened Fixtures
  import opened StrideFold

  /** One `<tr>` of the table, reduced to what the parser reads from it: the
      text of its `td.column-date` cell and the texts of its `td.column-club`
      cells, untrimmed. */
  datatype Row = Row(dateText: string, clubTexts: seq<string>)

  /** `\d{2}\.\d{2}\.\d{2}`: a `dd.MM.yy` date. */
  const DatePattern: Pattern := [Digit, Digit, Char('.'), Digit, Digit, Char('.'), Digit, Digit]

  /** `\d{2}:\d{2}`: an `HH:mm` time. */
  const TimePattern: Pattern := [Digit, Digit, Char(':'), Digit, Digit]

  /** The marker the site puts in place of the opponent in a bye round. */
  const Spielfrei: string := "spielfrei"

  /** The trimmed date text of row `i`; a row past the end reads as empty. */
  function DateTextAt(rows: seq<Row>, i: nat): string {
    if i < |rows| then Trim(rows[i].dateText) else ""
  }

  /** The trimmed first club cell of row `i`, or empty when there is none. */
  function HomeTeamAt(rows: seq<Row>, i: nat): string {
    if i < |rows| && rows[i].clubTexts != [] then Trim(rows[i].clubTexts[0]) else ""
  }

  /** The trimmed last club cell of row `i`, or empty when there is none. */
  function AwayTeamAt(rows: seq<Row>, i: nat): string {
    if i < |rows| && rows[i].clubTexts != [] then Trim(rows[i].clubTexts[|rows[i].clubTexts| - 1]) else ""
  }

  /** A bye: the lower-cased away name is `spielfrei`. */
  predicate IsBye(away: string) {
    ToLowerAscii(away) == Spielfrei
  }

  /** The bye test is a case-insensitive comparison with `spielfrei`: every
      position holds the lower-case letter or its upper-case form. */
  lemma IsByeIffSpielfreiIgnoringCase(away: string)
    ensures IsBye(away) <==>
      |away| == 9 && forall k :: 0 <= k < 9 ==>
        away[k] == Spielfrei[k] || away[k] as int == Spielfrei[k] as int - 32
  {
    if |away| == 9 && forall k :: 0 <= k < 9 ==>
        away[k] == Spielfrei[k] || away[k] as int == Spielfrei[k] as int - 32 {
      assert forall k :: 0 <= k < 9 ==> ToLowerAscii(away)[k] == Spielfrei[k];
    }
  }

  /** What the reduce callback does at a row index `i` divisible by three:
      read the date text of row `i + 1` and the teams of row `i + 2`, and
      build a record when a date is present and the group is not a hidden
      bye. Its contract is spread over the `ParseGroup…` lemmas below. */
  function ParseGroup(rows: seq<Row>, i: nat, showSpielfrei: bool): (r: Option<Match<string>>)
    ensures r.Some? ==> r.value.spielfrei == IsBye(AwayTeamAt(rows, i + 2))
    ensures r.Some? && r.value.spielfrei ==> showSpielfrei
  {
    var text := DateTextAt(rows, i + 1);
    var home := HomeTeamAt(rows, i + 2);
    var away := AwayTeamAt(rows, i + 2);
    var spielfrei := IsBye(away);
    var dateMatch := FirstMatch(text, DatePattern);
    var time := FirstMatch(text, TimePattern);
    if dateMatch.Some? && (!spielfrei || showSpielfrei) then
      Some(Match(
        dateMatch.value,
        time,
        if spielfrei then Spielfrei else home,
        if spielfrei then Spielfrei else away,
        spielfrei,
        None,
        None))
    else
      None
  }

  /** Some position of `s` matches the pattern. */
  ghost predicate Contains(s: string, p: Pattern) {
    exists k :: MatchesAt(s, p, k)
  }

  /** A group yields a record exactly when its date text holds a `dd.MM.yy`
      date and it is not a bye or byes are shown. */
  lemma ParseGroupYields(rows: seq<Row>, i: nat, showSpielfrei: bool)
    ensures ParseGroup(rows, i, showSpielfrei).Some? <==>
      Contains(DateTextAt(rows, i + 1), DatePattern) && (!IsBye(AwayTeamAt(rows, i + 2)) || showSpielfrei)
  {
    FirstMatchSpec(DateTextAt(rows, i + 1), DatePattern);
  }

  /** The record's date is the leftmost `dd.MM.yy` of the date text. */
  lemma ParseGroupDate(rows: seq<Row>, i: nat, showSpielfrei: bool)
    ensures var r, text := ParseGroup(rows, i, showSpielfrei), DateTextAt(rows, i + 1);
      r.Some? ==> exists k :: IsLeftmostMatch(text, DatePattern, k) && r.value.date == text[k..k + 8]
  {
    FirstMatchSpec(DateTextAt(rows, i + 1), DatePattern);
  }

  /** The record has no time exactly when the date text holds no `HH:mm`. */
  lemma ParseGroupTimeAbsent(rows: seq<Row>, i: nat, showSpielfrei: bool)
    ensures var r := ParseGroup(rows, i, showSpielfrei);
      r.Some? ==> (r.value.time.None? <==> !Contains(DateTextAt(rows, i + 1), TimePattern))
  {
    FirstMatchSpec(DateTextAt(rows, i + 1), TimePattern);
  }

  /** A record's time, when present, is the leftmost `HH:mm` of the date text. */
  lemma ParseGroupTime(rows: seq<Row>, i: nat, showSpielfrei: bool)
    ensures var r, text := ParseGroup(rows, i, showSpielfrei), DateTextAt(rows, i + 1);
      r.Some? && r.value.time.Some? ==>
        exists k :: IsLeftmostMatch(text, TimePattern, k) && r.value.time.value == text[k..k + 5]
  {
    FirstMatchSpec(DateTextAt(rows, i + 1), TimePattern);
  }

  /** A record's teams are the first and last club cells, both replaced by
      `spielfrei` in a bye; the record carries no location. */
  lemma ParseGroupTeams(rows: seq<Row>, i: nat, showSpielfrei: bool)
    ensures var r, bye := ParseGroup(rows, i, showSpielfrei), IsBye(AwayTeamAt(rows, i + 2));
      r.Some? ==>
        && r.value.spielfrei == bye
        && r.value.homeTeam == (if bye then Spielfrei else HomeTeamAt(rows, i + 2))
        && r.value.awayTeam == (if bye then Spielfrei else AwayTeamAt(rows, i + 2))
        && r.value.location.None? && r.value.locationCoords.None?
  {
  }

  /** The reduce callback of `parseMatches`, as a function of the row index. */
  function Groups(rows: seq<Row>, showSpielfrei: bool): nat -> Option<Match<string>> {
    (i: nat) => ParseGroup(rows, i, showSpielfrei)
  }

  /** `parseMatches`: the records of the groups of three rows, in row order;
      at most one per group, none without rows, and no byes unless they are
      asked for. */
  function ParseMatches(rows: seq<Row>, showSpielfrei: bool): (r: seq<Match<string>>)
    ensures r == Groupwise(|rows|, Groups(rows, showSpielfrei), 0)
    ensures |r| <= (|rows| + 2) / 3
    ensures !showSpielfrei ==> forall j :: 0 <= j < |r| ==> !r[j].spielfrei
  {
    ReduceFromStart(|rows|, Groups(rows, showSpielfrei));
    GroupwiseLength(|rows|, Groups(rows, showSpielfrei), 0);
    GroupwiseAll(|rows|, Groups(rows, showSpielfrei), 0, (m: Match<string>) => showSpielfrei || !m.spielfrei);
    Reduce(|rows|, Groups(rows, showSpielfrei), 0, [])
  }

  /** Output order is group order: each record is the one its group built,
      the groups that built them are listed in ascending order, and every
      group that builds a record contributes it. */
  lemma ParseMatchesFollowsGroupOrder(rows: seq<Row>, showSpielfrei: bool)
    ensures var r, gs := ParseMatches(rows, showSpielfrei), Contributing(|rows|, Groups(rows, showSpielfrei), 0);
      && |gs| == |r|
      && (forall j :: 0 <= j < |r| ==> 3 * gs[j] < |rows| && ParseGroup(rows, 3 * gs[j], showSpielfrei) == Some(r[j]))
      && (forall a, b :: 0 <= a < b < |gs| ==> gs[a] < gs[b])
      && (forall h: nat :: 3 * h < |rows| ==> (h in gs <==> ParseGroup(rows, 3 * h, showSpielfrei).Some?))
  {
    var f := Groups(rows, showSpielfrei);
    GroupwiseTracesGroups(|rows|, f, 0);
    forall i: nat
      ensures f(i) == ParseGroup(rows, i, showSpielfrei)
    {
    }
  }

  /** An empty table yields no matches. */
  lemma ParseMatchesEmpty(showSpielfrei: bool)
    ensures ParseMatches([], showSpielfrei) == []
  {
  }

  /** A group whose date text holds no `dd.MM.yy` date yields nothing. */
  lemma GroupWithoutDateIsSkipped(rows: seq<Row>, i: nat, showSpielfrei: bool)
    requires !Contains(DateTextAt(rows, i + 1), DatePattern)
    ensures ParseGroup(rows, i, showSpielfrei).None?
  {
    ParseGroupYields(rows, i, showSpielfrei);
  }

  /** A trailing group that lacks its date row yields nothing. */
  lemma TruncatedBeforeDateRow(rows: seq<Row>, i: nat, showSpielfrei: bool)
    requires |rows| <= i + 1
    ensures ParseGroup(rows, i, showSpielfrei).None?
  {
    assert !MatchesAt(DateTextAt(rows, i + 1), DatePattern, 0);
    ParseGroupYields(rows, i, showSpielfrei);
  }

  /** A trailing group that has its date row but lacks its teams row still
      yields a record when the date is present: not a bye, with empty team
      names. */
  lemma TruncatedBeforeTeamsRow(rows: seq<Row>, i: nat, showSpielfrei: bool)
    requires |rows| == i + 2
    requires Contains(DateTextAt(rows, i + 1), DatePattern)
    ensures ParseGroup(rows, i, showSpielfrei).Some?
    ensures var m := ParseGroup(rows, i, showSpielfrei).value;
      m.homeTeam == "" && m.awayTeam == "" && !m.spielfrei
  {
    assert !IsBye("");
    ParseGroupYields(rows, i, showSpielfrei);
  }

  /** Hiding byes drops exactly the bye record a group would otherwise build. */
  lemma ParseGroupHidingByes(rows: seq<Row>, i: nat)
    ensures NonByes(Emit(ParseGroup(rows, i, true))) == Emit(ParseGroup(rows, i, false))
  {
  }

  /** When every group's hidden-bye result is its shown-bye result with the
      bye dropped, the same holds of the concatenation of the groups. */
  lemma {:induction false} GroupwiseNonByes<D>(n: nat, shown: nat -> Option<Match<D>>, hidden: nat -> Option<Match<D>>, g: nat)
    requires forall i :: NonByes(Emit(shown(i))) == Emit(hidden(i))
    ensures NonByes(Groupwise(n, shown, g)) == Groupwise(n, hidden, g)
    decreases n - 3 * g
  {
    if 3 * g < n {
      GroupwiseNonByes(n, shown, hidden, g + 1);
      NonByesAppend(Emit(shown(3 * g)), Groupwise(n, shown, g + 1));
    }
  }

  /** Parsing with byes shown and then dropping the byes gives exactly the
      result of parsing with byes hidden. */
  lemma HidingByesIsFiltering(rows: seq<Row>)
    ensures NonByes(ParseMatches(rows, true)) == ParseMatches(rows, false)
  {
    var shown, hidden := Groups(rows, true), Groups(rows, false);
    forall i: nat
      ensures NonByes(Emit(shown(i))) == Emit(hidden(i))
    {
      ParseGroupHidingByes(rows, i);
    }
    GroupwiseNonByes(|rows|, shown, hidden, 0);
  }

  /** `matchesForTeam`: a failed fetch (`null`) or an empty page gives no
      matches; otherwise the rows the page's table yields are parsed. The
      DOM extraction of the rows is a parameter. */
  function MatchesForTeam(html: Option<string>, extractRows: string -> seq<Row>, showSpielfrei: bool): (r: seq<Match<string>>)
    ensures html.None? || html.value == "" ==> r == []
    ensures html.Some? && html.value != "" ==> r == ParseMatches(extractRows(html.value), showSpielfrei)
    ensures !showSpielfrei ==> forall j :: 0 <= j < |r| ==> !r[j].spielfrei
  {
    if html.None? || html.value == "" then [] else ParseMatches(extractRows(html.value), showSpielfrei)
  }
}
