/**
 * The weekly availability grid (AvailabilityPage.js): one button per day and
 * whole hour, a `selected` map that colours the buttons, and the list of
 * availability slots the page saves. Clicking a button toggles its cell in
 * both; whenever the list changes, an effect rebuilds `selected` from it.
 */
module AvailabilityPage {
  import opened Wrappers
  import opened JsText
  import Cookies
  import opened Images
  import Models

  /** The grid's columns. */
  const Days: seq<string> :=
    ["Monday", "Tuesday", "Wednesday", "Thursday", "Friday", "Saturday", "Sunday"]

  /** The label of the grid row for hour `i`: `${i}:00`. */
  function GridHour(i: nat): (text: string)
    requires i < 24
    ensures '-' !in text && ':' in text
  {
    var text := NatToString(i) + ":00";
    assert text[|text| - 3] == ':';
    text
  }

  /** The grid's rows, `0:00` to `23:00`. */
  function Hours(): seq<string> { seq(24, i requires 0 <= i < 24 => GridHour(i)) }

  /** The key of a cell in `selected`: `${day}-${hour}`. */
  function CellKey(day: string, hour: string): string {
    day + "-" + hour
  }

  /** `key.split("-")` gives back the day and the hour of a grid cell. */
  lemma CellKeySplit(day: string, hour: string)
    requires '-' !in day && '-' !in hour
    ensures Split(CellKey(day, hour), '-') == [day, hour]
  {
    SplitAtFirstSeparator(day, '-', hour);
    SplitWithoutSeparator(hour, '-');
  }

  /** Two cells share a key only if they are the same cell, as long as day names have no dash. */
  lemma CellKeyInjective(d1: string, h1: string, d2: string, h2: string)
    requires '-' !in d1 && '-' !in d2
    ensures CellKey(d1, h1) == CellKey(d2, h2) <==> d1 == d2 && h1 == h2
  {
    var k1, k2 := CellKey(d1, h1), CellKey(d2, h2);
    SplitAtFirstSeparator(d1, '-', h1);
    SplitAtFirstSeparator(d2, '-', h2);
    if k1 == k2 {
      assert d1 == Split(k1, '-')[0] == d2;
      assert h1 == k1[|d1| + 1..] && h2 == k2[|d2| + 1..];
    }
  }

  /** `parseInt(start_time.split(":")[0]) + ":00"`: the row a start time falls in; `NaN:00` when it has no number. */
  function HourLabel(startTime: string): string {
    var h := ParseInt(Split(startTime, ':')[0]);
    (if h.Some? then IntToString(h.value) else "NaN") + ":00"
  }

  /** `calculateEndTime`: the hour after `start`, wrapping `23:00` (and anything unreadable) to `0:00`. */
  function CalculateEndTime(start: string): string {
    var h := ParseInt(start);
    var end := if h.Some? && h.value < 23 then h.value + 1 else 0;
    IntToString(end) + ":00"
  }

  /**
   * The label of a start time is the grid row whose hour is the number
   * before its first colon; `NaN:00`, which labels no row, when there is no
   * number there.
   */
  lemma HourLabelIsRow(startTime: string)
    ensures var h := ParseInt(Split(startTime, ':')[0]);
            && (h.Some? && 0 <= h.value < 24 ==> HourLabel(startTime) == GridHour(h.value))
            && (h.None? ==> HourLabel(startTime) !in Hours())
  {
    var h := ParseInt(Split(startTime, ':')[0]);
    if h.None? {
      assert HourLabel(startTime)[0] == 'N';
      forall i | 0 <= i < 24 ensures GridHour(i)[0] != 'N' {
        assert IsDigit(NatToString(i)[0]);
      }
    }
  }

  /**
   * The end time of a slot is the row after its start's, for any start
   * `parseInt` reads as an hour of the grid; `23:00`, any later hour and
   * an unreadable start end at `0:00`.
   */
  lemma EndTimeIsNextRow(start: string)
    ensures var h := ParseInt(start);
            && (h.Some? && 0 <= h.value < 23 ==> CalculateEndTime(start) == GridHour(h.value + 1))
            && (h.None? || h.value >= 23 ==> CalculateEndTime(start) == GridHour(0))
  {
  }

  lemma GridHourParses(i: nat)
    requires i < 24
    ensures ParseInt(GridHour(i)) == Some(i)
  {
    var s := NatToString(i) + ":00";
    assert GridHour(i) == s;
    ParseIntOfDecimal(i, ":00");
  }

  lemma GridHourSplits(i: nat)
    requires i < 24
    ensures Split(GridHour(i), ':')[0] == NatToString(i)
  {
    var ds := NatToString(i);
    assert ':' !in ds by {
      assert forall k :: 0 <= k < |ds| ==> IsDigit(ds[k]);
    }
    assert GridHour(i) == ds + [':'] + "00";
    SplitAtFirstSeparator(ds, ':', "00");
  }

  /** The slot added for row `i` ends at the next row, `23:00` wrapping to `0:00`. */
  lemma EndTimeOfGridHour(i: nat)
    requires i < 24
    ensures CalculateEndTime(GridHour(i)) == GridHour(if i < 23 then i + 1 else 0)
  {
    GridHourParses(i);
    var end: nat := if i < 23 then i + 1 else 0;
    assert IntToString(end) == NatToString(end);
    assert CalculateEndTime(GridHour(i)) == NatToString(end) + ":00";
  }

  /** A row label is its own row: the label of a start time written as a grid hour. */
  lemma HourLabelOfGridHour(i: nat)
    requires i < 24
    ensures HourLabel(GridHour(i)) == GridHour(i)
  {
    GridHourSplits(i);
    ParseIntOfDigits(NatToString(i));
  }

  /** A time the API sends as `HH:MM:SS` falls in the row of its hour: `09:30:00` is in `9:00`. */
  lemma HourLabelOfServerTime(hh: string, rest: string, hour: nat)
    requires hour < 24 && |hh| >= 1 && AllDigits(hh) && DigitsValue(hh) == hour
    ensures HourLabel(hh + ":" + rest) == GridHour(hour)
  {
    assert ':' !in hh by {
      assert forall k :: 0 <= k < |hh| ==> IsDigit(hh[k]);
    }
    assert hh + ":" + rest == hh + [':'] + rest;
    SplitAtFirstSeparator(hh, ':', rest);
    ParseIntOfDigits(hh);
  }

  /** A time as the API writes it (`time.isoformat()`) falls in the grid row of its hour. */
  lemma IsoTimeRow(t: Models.Time)
    requires t.Valid()
    ensures HourLabel(Models.IsoFormat(t)) == GridHour(t.hour)
  {
    var hh := Models.Pad2(t.hour);
    var rest := Models.Pad2(t.minute) + ":" + Models.Pad2(t.second);
    assert Models.IsoFormat(t) == hh + ":" + rest;
    HourLabelOfServerTime(hh, rest, t.hour);
  }

  /** A slot of the page's list: as fetched (with its id) or as added by a click (without). */
  datatype Slot = Slot(availabilityId: Option<nat>, dayOfWeek: string, startTime: string, endTime: string)

  /** The `findIndex` test of `toggleButton`. */
  predicate Matches(slot: Slot, day: string, start: string) {
    slot.dayOfWeek == day && HourLabel(slot.startTime) == start
  }

  /** `prevList.findIndex(...)`: the first matching slot, or -1. */
  function FindIndex(list: seq<Slot>, day: string, start: string): (r: int)
    ensures -1 <= r < |list|
    ensures r >= 0 ==> Matches(list[r], day, start)
    ensures forall j :: 0 <= j < |list| && (r == -1 || j < r) ==> !Matches(list[j], day, start)
  {
    if list == [] then -1
    else if Matches(list[0], day, start) then 0
    else
      var k := FindIndex(list[1..], day, start);
      assert forall j :: 1 <= j < |list| ==> list[j] == list[1..][j - 1];
      if k == -1 then -1 else 1 + k
  }

  /**
   * The slot list after a click on the cell (`day`, `hour`), which the page
   * passes on as its key and splits back at the dash: the first slot in that
   * cell is removed, or, when there is none, a slot for the cell ending an
   * hour later is appended.
   */
  function Toggled(list: seq<Slot>, day: string, hour: string): (r: seq<Slot>)
    requires '-' !in day && '-' !in hour
    ensures var i := FindIndex(list, day, hour);
            r == if i != -1 then RemoveAt(list, i) else list + [Slot(None, day, hour, CalculateEndTime(hour))]
  {
    var parts := Split(CellKey(day, hour), '-');
    CellKeySplit(day, hour);
    var index := FindIndex(list, parts[0], parts[1]);
    if index != -1 then RemoveAt(list, index)
    else list + [Slot(None, parts[0], parts[1], CalculateEndTime(parts[1]))]
  }

  /** The cell a slot lights up when `selected` is rebuilt from the list. */
  function SlotKey(slot: Slot): string {
    CellKey(slot.dayOfWeek, HourLabel(slot.startTime))
  }

  /** The cells the listed slots light up. */
  function SlotKeys(list: seq<Slot>): set<string> {
    Image(list, SlotKey)
  }

  /** No two slots light up the same cell. */
  predicate DistinctKeys(list: seq<Slot>) {
    Injective(list, SlotKey)
  }

  predicate DayNamesWithoutDash(list: seq<Slot>) {
    forall i :: 0 <= i < |list| ==> '-' !in list[i].dayOfWeek
  }

  /** The cells a `selected` map colours: its keys bound to a truthy value. */
  function Lit(selected: map<string, bool>): set<string> {
    set k | k in selected && selected[k]
  }

  /** Flipping one cell of `selected` lights it exactly when it was dark, and leaves the others alone. */
  lemma LitFlip(selected: map<string, bool>, key: string)
    ensures var flipped := selected[key := !(key in selected && selected[key])];
            Lit(flipped) == if key in Lit(selected) then Lit(selected) - {key} else Lit(selected) + {key}
  {
  }

  lemma MatchesIffKey(slot: Slot, day: string, hour: string)
    requires '-' !in slot.dayOfWeek && '-' !in day
    ensures Matches(slot, day, hour) <==> SlotKey(slot) == CellKey(day, hour)
  {
    CellKeyInjective(slot.dayOfWeek, HourLabel(slot.startTime), day, hour);
  }

  lemma DaysWithoutDash(day: string)
    requires day in Days
    ensures '-' !in day
  {
  }

  /** Every row label of the grid reads back as itself. */
  lemma RowLabelIsRow(hour: string)
    requires hour in Hours()
    ensures HourLabel(hour) == hour
  {
    var n :| 0 <= n < 24 && Hours()[n] == hour;
    HourLabelOfGridHour(n);
  }

  /** A cell as the page reads it back: no dash in its day or hour, and the hour its own row label. */
  predicate IsCell(day: string, hour: string) {
    '-' !in day && '-' !in hour && HourLabel(hour) == hour
  }

  /** Every button of the grid is such a cell. */
  lemma GridCell(day: string, hour: string)
    requires day in Days && hour in Hours()
    ensures IsCell(day, hour)
  {
    DaysWithoutDash(day);
    RowLabelIsRow(hour);
    var n :| 0 <= n < 24 && Hours()[n] == hour;
    assert '-' !in GridHour(n);
  }

  /** `findIndex` finds a slot exactly when the clicked cell is lit by the list, and then the slot lights it. */
  lemma FoundIffListed(list: seq<Slot>, day: string, hour: string)
    requires DayNamesWithoutDash(list) && '-' !in day
    ensures FindIndex(list, day, hour) != -1 <==> CellKey(day, hour) in SlotKeys(list)
    ensures FindIndex(list, day, hour) != -1 ==> SlotKey(list[FindIndex(list, day, hour)]) == CellKey(day, hour)
  {
    var key := CellKey(day, hour);
    forall j | 0 <= j < |list| ensures Matches(list[j], day, hour) <==> SlotKey(list[j]) == key {
      MatchesIffKey(list[j], day, hour);
    }
    if key in SlotKeys(list) {
      var j :| 0 <= j < |list| && SlotKey(list[j]) == key;
      assert Matches(list[j], day, hour);
    }
  }

  lemma RemoveAtWithoutDash(list: seq<Slot>, index: int)
    requires 0 <= index < |list| && DayNamesWithoutDash(list)
    ensures DayNamesWithoutDash(RemoveAt(list, index))
  {
    RemoveAtShifts(list, index);
  }

  /**
   * Toggling a listed cell takes exactly its key out of the lit cells of the
   * list; toggling an unlisted one adds exactly its key; either way no two
   * slots share a cell afterwards.
   */
  lemma ToggledKeys(list: seq<Slot>, day: string, hour: string)
    requires IsCell(day, hour)
    requires DayNamesWithoutDash(list) && DistinctKeys(list)
    ensures var key := CellKey(day, hour);
            && (key in SlotKeys(list) ==> SlotKeys(Toggled(list, day, hour)) == SlotKeys(list) - {key})
            && (key !in SlotKeys(list) ==> SlotKeys(Toggled(list, day, hour)) == SlotKeys(list) + {key})
    ensures DayNamesWithoutDash(Toggled(list, day, hour)) && DistinctKeys(Toggled(list, day, hour))
  {
    var key := CellKey(day, hour);
    CellKeySplit(day, hour);
    FoundIffListed(list, day, hour);
    var index := FindIndex(list, day, hour);
    var toggled := Toggled(list, day, hour);
    if index != -1 {
      assert toggled == RemoveAt(list, index);
      assert SlotKeys(toggled) == SlotKeys(list) - {key} by {
        ImageRemoveAt(list, index, SlotKey);
      }
      assert DistinctKeys(toggled) && DayNamesWithoutDash(toggled) by {
        InjectiveRemoveAt(list, index, SlotKey);
        RemoveAtWithoutDash(list, index);
      }
    } else {
      var slot := Slot(None, day, hour, CalculateEndTime(hour));
      assert toggled == list + [slot];
      assert SlotKey(slot) == key;
      assert SlotKeys(toggled) == SlotKeys(list) + {key} by {
        ImageSnoc(list, slot, SlotKey);
      }
      assert DistinctKeys(toggled) && DayNamesWithoutDash(toggled) by {
        InjectiveSnoc(list, slot, SlotKey);
        var r := list + [slot];
        assert forall j :: 0 <= j < |r| ==> r[j] == (if j < |list| then list[j] else slot);
      }
    }
  }

  /** Clicking a cell that has no slot and then clicking it again leaves the list as it was. */
  lemma ToggleTwiceRestores(list: seq<Slot>, day: string, hour: string)
    requires IsCell(day, hour)
    requires FindIndex(list, day, hour) == -1
    ensures Toggled(Toggled(list, day, hour), day, hour) == list
  {
    var slot := Slot(None, day, hour, CalculateEndTime(hour));
    var once := list + [slot];
    FindIndexSnoc(list, slot, day, hour);
    assert once[..|list|] + once[|list| + 1..] == list;
  }

  /** Flipping a cell's colour together with its slot keeps the colours those of the listed slots. */
  lemma ToggleKeepsColours(selected: map<string, bool>, list: seq<Slot>, day: string, hour: string)
    requires IsCell(day, hour)
    requires DayNamesWithoutDash(list) && DistinctKeys(list) && Lit(selected) == SlotKeys(list)
    ensures var key := CellKey(day, hour);
            var toggled := Toggled(list, day, hour);
            && DayNamesWithoutDash(toggled) && DistinctKeys(toggled)
            && Lit(selected[key := !(key in selected && selected[key])]) == SlotKeys(toggled)
  {
    LitFlip(selected, CellKey(day, hour));
    ToggledKeys(list, day, hour);
  }

  /** Appending a matching slot to a list without one makes it the one found. */
  lemma FindIndexSnoc(list: seq<Slot>, slot: Slot, day: string, start: string)
    requires FindIndex(list, day, start) == -1 && Matches(slot, day, start)
    ensures FindIndex(list + [slot], day, start) == |list|
  {
    var r := list + [slot];
    assert forall j :: 0 <= j < |list| ==> r[j] == list[j];
    assert r[|list|] == slot;
  }

  /** The map the effect builds: every listed slot's cell set to `true`. */
  function PreSelected(list: seq<Slot>): (m: map<string, bool>)
    ensures m.Keys == SlotKeys(list) && Lit(m) == SlotKeys(list)
  {
    map k | k in SlotKeys(list) :: true
  }

  lemma PreSelectedSnoc(list: seq<Slot>, slot: Slot)
    ensures PreSelected(list + [slot]) == PreSelected(list)[SlotKey(slot) := true]
  {
    ImageSnoc(list, slot, SlotKey);
  }

  /** What `POST /api/save-availabilities` carries for one slot: the slot without its id. */
  datatype SlotPayload = SlotPayload(dayOfWeek: string, startTime: string, endTime: string)

  datatype SaveRequest = SaveRequest(csrfToken: string, availabilities: seq<SlotPayload>)

  function PayloadOf(slot: Slot): SlotPayload {
    SlotPayload(slot.dayOfWeek, slot.startTime, slot.endTime)
  }

  /** The state of the page. */
  class Grid {
    /** The cell keys and whether each is coloured. */
    var selected: map<string, bool>
    /** The slots shown and saved, in the order the page keeps them. */
    var availabilities: seq<Slot>

    /** `selected` colours exactly the cells of the listed slots, and each cell at most once. */
    ghost predicate Valid()
      reads this
    {
      && DayNamesWithoutDash(availabilities)
      && DistinctKeys(availabilities)
      && Lit(selected) == SlotKeys(availabilities)
    }

    /** The page as first rendered: nothing selected, nothing listed. */
    constructor ()
      ensures Valid()
      ensures selected == map[] && availabilities == []
    {
      selected := map[];
      availabilities := [];
    }

    /**
     * `toggleButton(day, hour)`: flips the cell in `selected` (an absent key
     * counts as off) and toggles its slot in the list. On a page whose
     * cells each hold at most one slot, the cells coloured stay exactly those
     * of the listed slots.
     */
    method Toggle(day: string, hour: string)
      requires IsCell(day, hour)
      modifies this
      ensures old(Valid()) ==> Valid()
      ensures var key := CellKey(day, hour);
              selected == old(selected)[key := !(key in old(selected) && old(selected)[key])]
      ensures availabilities == Toggled(old(availabilities), day, hour)
      ensures CellKey(day, hour) in Lit(selected) <==> CellKey(day, hour) !in Lit(old(selected))
    {
      var key := CellKey(day, hour);
      LitFlip(selected, key);
      if Valid() {
        ToggleKeepsColours(selected, availabilities, day, hour);
      }
      selected := selected[key := !(key in selected && selected[key])];
      availabilities := Toggled(availabilities, day, hour);
    }

    /** The effect on `[availabilities]`: `selected` is rebuilt from the list, one slot at a time. */
    method PreSelect()
      modifies this
      ensures selected == PreSelected(availabilities) && Lit(selected) == SlotKeys(availabilities)
      ensures availabilities == old(availabilities)
    {
      var list := availabilities;
      var preSelected: map<string, bool> := map[];
      var i := 0;
      while i < |list|
        invariant 0 <= i <= |list|
        invariant preSelected == PreSelected(list[..i])
        modifies {}
      {
        var slot := list[i];
        var key := CellKey(slot.dayOfWeek, HourLabel(slot.startTime));
        preSelected := preSelected[key := true];
        assert list[..i + 1] == list[..i] + [slot];
        PreSelectedSnoc(list[..i], slot);
        i := i + 1;
      }
      assert list[..i] == list;
      selected := preSelected;
    }

    /**
     * The fetch effect: a successful `GET /api/get-availabilities` replaces
     * the list (and the list effect then recolours the grid); a failed one
     * leaves the page as it was.
     */
    method Load(fetched: Option<seq<Slot>>)
      modifies this
      ensures fetched.Some? ==> availabilities == fetched.value && Lit(selected) == SlotKeys(fetched.value)
      ensures fetched.None? ==> availabilities == old(availabilities) && selected == old(selected)
    {
      if fetched.Some? {
        availabilities := fetched.value;
        PreSelect();
      }
    }

    /** The loop of `handleSubmit`: every slot of the list, in order, without its id. */
    method AvailabilityData() returns (data: seq<SlotPayload>)
      ensures |data| == |availabilities|
      ensures forall i :: 0 <= i < |availabilities| ==> data[i] == PayloadOf(availabilities[i])
    {
      data := [];
      var i := 0;
      while i < |availabilities|
        invariant 0 <= i <= |availabilities|
        invariant |data| == i
        invariant forall j :: 0 <= j < i ==> data[j] == PayloadOf(availabilities[j])
      {
        var slot := availabilities[i];
        data := data + [SlotPayload(slot.dayOfWeek, slot.startTime, slot.endTime)];
        i := i + 1;
      }
    }

    /**
     * `handleSubmit`: no request without a CSRF token; otherwise the body
     * lists every slot, in order, without its id.
     */
    method Submit(cookie: string) returns (r: Option<SaveRequest>)
      ensures r.None? <==> Cookies.CsrfToken(cookie).None?
      ensures r.Some? ==> r.value.csrfToken == Cookies.CsrfToken(cookie).value
      ensures r.Some? ==> |r.value.availabilities| == |availabilities|
      ensures r.Some? ==> forall i :: 0 <= i < |availabilities| ==>
                            r.value.availabilities[i] == PayloadOf(availabilities[i])
    {
      var token := Cookies.CsrfToken(cookie);
      if token.None? {
        return None;
      }
      var data := AvailabilityData();
      r := Some(SaveRequest(token.value, data));
    }
  }

  /**
   * After any click and the re-render it causes, the grid colours exactly
   * the listed slots, whatever the list held before; a page whose cells each
   * held at most one slot keeps that.
   */
  method Click(g: Grid, day: string, hour: string)
    requires day in Days && hour in Hours()
    modifies g
    ensures old(g.Valid()) ==> g.Valid()
    ensures Lit(g.selected) == SlotKeys(g.availabilities)
    ensures g.availabilities == Toggled(old(g.availabilities), day, hour)
    ensures g.selected == PreSelected(g.availabilities)
  {
    GridCell(day, hour);
    g.Toggle(day, hour);
    g.PreSelect();
  }
}
