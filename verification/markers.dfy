/** The spell checker's marker set: one inline decoration per reported match, replaced
    scope by scope as checks complete and carried through every document edit. */
module Markers {
  import opened Proofreading
  import opened Seqs

  /** What a marker remembers about the match it was made for (the `word` attribute:
      the match with the document range computed when the marker was made). */
  datatype Payload = Payload(found: Match, docFrom: int, docTo: int)

  /** An inline decoration over the document range `[from, to)`. */
  datatype Marker = Marker(from: int, to: int, payload: Payload)

  /** The marker for one match of a text that starts at document position `base`. */
  function MarkerFor(m: Match, base: int): (r: Marker)
    ensures r.from == m.offset + base && r.to == r.from + m.length
    ensures r.payload == Payload(m, r.from, r.to)
  {
    var docFrom := m.offset + base;
    Marker(docFrom, docFrom + m.length, Payload(m, docFrom, docFrom + m.length))
  }

  /** The markers of a list of matches, one per match and in match order. */
  function MarkersFor(ms: seq<Match>, base: int): (r: seq<Marker>)
    ensures |r| == |ms|
    ensures forall i :: 0 <= i < |r| ==> r[i] == MarkerFor(ms[i], base)
  {
    if |ms| == 0 then [] else MarkersFor(ms[..|ms| - 1], base) + [MarkerFor(ms[|ms| - 1], base)]
  }

  /** The matches recorded in the payloads of a list of markers. */
  function MatchesOf(markers: seq<Marker>): (r: seq<Match>)
    ensures |r| == |markers|
    ensures forall i :: 0 <= i < |r| ==> r[i] == markers[i].payload.found
  {
    if |markers| == 0 then [] else MatchesOf(markers[..|markers| - 1]) + [markers[|markers| - 1].payload.found]
  }

  /** The markers keep the matches they were made for, so nothing is lost or reordered;
      each marker is as wide as its match, and matches in increasing offset order give
      markers in increasing start order. */
  lemma MarkersRoundTrip(ms: seq<Match>, base: int)
    ensures MatchesOf(MarkersFor(ms, base)) == ms
    ensures forall i :: 0 <= i < |ms| ==> MarkersFor(ms, base)[i].to - MarkersFor(ms, base)[i].from == ms[i].length
    ensures StrictlyIncreasing(ms, OffsetOf) ==> StrictlyIncreasing(MarkersFor(ms, base), (mk: Marker) => mk.from)
  {
  }

  /** `DecorationSet.find(lo, hi)`: a marker is found when it touches the closed range,
      ends included. */
  predicate Touches(mk: Marker, lo: int, hi: int) {
    mk.from <= hi && mk.to >= lo
  }

  function Outside(lo: int, hi: int): Marker -> bool {
    mk => !Touches(mk, lo, hi)
  }

  /** An inline decoration covers at least one position; `DecorationSet.add` drops the
      others when it builds its tree. */
  predicate NonEmpty(mk: Marker) {
    mk.from < mk.to
  }

  /** The markers `DecorationSet.add` actually keeps of those made for `ms`. */
  function NewMarkers(ms: seq<Match>, base: int): seq<Marker> {
    Filter(MarkersFor(ms, base), NonEmpty)
  }

  /** The end of `getMatchAndSetDecorations` for a text of length `len` checked at
      `base`: every marker touching `[base, base + len]` is removed, then one marker per
      match is added, and ProseMirror drops those that cover no position. */
  function Reconcile(markers: seq<Marker>, ms: seq<Match>, base: int, len: int): (r: seq<Marker>)
    ensures |r| <= |markers| + |ms|
    ensures forall mk :: mk in r ==> mk in markers || (NonEmpty(mk) && mk in MarkersFor(ms, base))
  {
    FilterSound(markers, Outside(base, base + len));
    FilterSound(MarkersFor(ms, base), NonEmpty);
    Filter(markers, Outside(base, base + len)) + NewMarkers(ms, base)
  }

  /** A marker survives reconciliation exactly when it is a non-empty new one or an old
      one that does not touch the checked scope; the new markers come last, in match
      order, and every match of positive length gets its marker. */
  lemma ReconcileMembers(markers: seq<Marker>, ms: seq<Match>, base: int, len: int)
    ensures forall mk :: mk in Reconcile(markers, ms, base, len) <==>
      (mk in markers && !Touches(mk, base, base + len)) || (mk in MarkersFor(ms, base) && NonEmpty(mk))
    ensures forall mk :: mk in markers && Touches(mk, base, base + len) && mk !in MarkersFor(ms, base) ==>
      mk !in Reconcile(markers, ms, base, len)
    ensures var r := Reconcile(markers, ms, base, len);
      r[|r| - |NewMarkers(ms, base)|..] == NewMarkers(ms, base)
    ensures forall i :: 0 <= i < |ms| && ms[i].length > 0 ==> MarkerFor(ms[i], base) in Reconcile(markers, ms, base, len)
  {
    var p := Outside(base, base + len);
    FilterSound(markers, p);
    var made := MarkersFor(ms, base);
    FilterSound(made, NonEmpty);
    forall mk | mk in made && NonEmpty(mk)
      ensures mk in NewMarkers(ms, base)
    {
      FilterKeeps(made, NonEmpty, mk);
    }
    forall i | 0 <= i < |ms| && ms[i].length > 0
      ensures MarkerFor(ms[i], base) in NewMarkers(ms, base)
    {
      assert made[i] == MarkerFor(ms[i], base);
      FilterKeeps(made, NonEmpty, made[i]);
    }
    forall mk | mk in markers && !Touches(mk, base, base + len)
      ensures mk in Filter(markers, p)
    {
      FilterKeeps(markers, p, mk);
    }
  }

  /** The marker of a match inside the checked text touches the checked scope. */
  lemma MarkerInScope(m: Match, base: int, len: int)
    requires InText(m, len)
    ensures Touches(MarkerFor(m, base), base, base + len)
  {
  }

  /** Reporting the same matches of the same scope twice gives the same marker set as
      reporting them once. */
  lemma {:induction false} ReconcileIdempotent(markers: seq<Marker>, ms: seq<Match>, base: int, len: int)
    requires forall i :: 0 <= i < |ms| ==> InText(ms[i], len)
    ensures Reconcile(Reconcile(markers, ms, base, len), ms, base, len) == Reconcile(markers, ms, base, len)
  {
    var p := Outside(base, base + len);
    FilterConcat(Filter(markers, p), NewMarkers(ms, base), p);
    FilterIdempotent(markers, p);
    NewMarkersInScope(ms, base, len);
  }

  /** The markers of matches inside the checked text all touch the checked scope. */
  lemma NewMarkersInScope(ms: seq<Match>, base: int, len: int)
    requires forall i :: 0 <= i < |ms| ==> InText(ms[i], len)
    ensures Filter(NewMarkers(ms, base), Outside(base, base + len)) == []
  {
    var made := MarkersFor(ms, base);
    var added := NewMarkers(ms, base);
    FilterSound(made, NonEmpty);
    forall i | 0 <= i < |added|
      ensures !Outside(base, base + len)(added[i])
    {
      assert added[i] in made;
      var j :| 0 <= j < |made| && made[j] == added[i];
      MarkerInScope(ms[j], base, len);
    }
    FilterNone(added, Outside(base, base + len));
  }

  /** `tr.mapping` as seen by an inline decoration: the start is mapped with right bias,
      the end with left bias (`inclusiveStart` and `inclusiveEnd` default to false). */
  datatype Mapping = Mapping(startMap: int -> int, endMap: int -> int)

  /** Mappings never swap positions, and a start never maps before an end at the same
      or an earlier position. */
  ghost predicate Monotone(m: Mapping) {
    forall x, y {:trigger m.startMap(x), m.endMap(y)} :: y <= x ==> m.endMap(y) <= m.startMap(x)
  }

  /** `DecorationSet.map`: each marker moves with the mapping and keeps its payload;
      a marker whose range collapses is dropped. */
  function MapMarkers(markers: seq<Marker>, m: Mapping): (r: seq<Marker>)
    ensures |r| <= |markers|
    ensures forall mk :: mk in r ==> NonEmpty(mk)
  {
    if |markers| == 0 then []
    else
      var init := MapMarkers(markers[..|markers| - 1], m);
      var mk := markers[|markers| - 1];
      var from, to := m.startMap(mk.from), m.endMap(mk.to);
      init + (if from < to then [Marker(from, to, mk.payload)] else [])
  }

  /** Every mapped marker comes from an old one with the same payload, moved by the
      mapping and not collapsed. */
  lemma {:induction false} MapMarkersSound(markers: seq<Marker>, m: Mapping)
    ensures forall mk :: mk in MapMarkers(markers, m) ==>
      mk.from < mk.to
      && exists prev :: prev in markers && mk == Marker(m.startMap(prev.from), m.endMap(prev.to), prev.payload)
  {
    if |markers| > 0 {
      var init := markers[..|markers| - 1];
      MapMarkersSound(init, m);
      assert markers == init + [markers[|markers| - 1]];
      forall mk | mk in MapMarkers(markers, m)
        ensures exists prev :: prev in markers && mk == Marker(m.startMap(prev.from), m.endMap(prev.to), prev.payload)
      {
        if mk in MapMarkers(init, m) {
          var prev :| prev in init && mk == Marker(m.startMap(prev.from), m.endMap(prev.to), prev.payload);
          assert prev in markers;
        } else {
          assert markers[|markers| - 1] in markers;
        }
      }
    }
  }

  /** Every old marker whose mapped range does not collapse is mapped. */
  lemma {:induction false} MapMarkersKeeps(markers: seq<Marker>, m: Mapping, prev: Marker)
    requires prev in markers && m.startMap(prev.from) < m.endMap(prev.to)
    ensures Marker(m.startMap(prev.from), m.endMap(prev.to), prev.payload) in MapMarkers(markers, m)
  {
    var init := markers[..|markers| - 1];
    if prev != markers[|markers| - 1] {
      assert markers == init + [markers[|markers| - 1]];
      assert prev in init;
      MapMarkersKeeps(init, m, prev);
    }
  }

  /** The mapping of a transaction that changes nothing. */
  function Identity(): Mapping {
    Mapping(x => x, x => x)
  }

  /** Mapping through an unchanged document keeps every marker that is not empty. */
  lemma {:induction false} MapIdentity(markers: seq<Marker>)
    requires forall i :: 0 <= i < |markers| ==> markers[i].from < markers[i].to
    ensures MapMarkers(markers, Identity()) == markers
  {
    if |markers| > 0 {
      MapIdentity(markers[..|markers| - 1]);
      assert markers[..|markers| - 1] + [markers[|markers| - 1]] == markers;
    }
  }

  /** Mapping through one transaction and then another. */
  function Compose(m1: Mapping, m2: Mapping): Mapping {
    Mapping(x => m2.startMap(m1.startMap(x)), x => m2.endMap(m1.endMap(x)))
  }

  /** Mapping marker by marker through two transactions in turn is mapping through their
      composition, provided the second never swaps positions. */
  lemma {:induction false} MapCompose(markers: seq<Marker>, m1: Mapping, m2: Mapping)
    requires Monotone(m2)
    ensures MapMarkers(MapMarkers(markers, m1), m2) == MapMarkers(markers, Compose(m1, m2))
  {
    if |markers| > 0 {
      var init := markers[..|markers| - 1];
      var mk := markers[|markers| - 1];
      MapCompose(init, m1, m2);
      var from1, to1 := m1.startMap(mk.from), m1.endMap(mk.to);
      var once := if from1 < to1 then [Marker(from1, to1, mk.payload)] else [];
      MapMarkersConcat(MapMarkers(init, m1), once, m2);
      if from1 >= to1 {
        assert m2.endMap(to1) <= m2.startMap(from1);
        assert MapMarkers(once, m2) == [];
      } else {
        assert once[..0] == [];
        assert MapMarkers(once, m2) == MapMarkers(once[..0], m2) + MapMarkers([mk], Compose(m1, m2))[0..];
      }
    }
  }

  /** Mapping distributes over concatenation. */
  lemma {:induction false} MapMarkersConcat(a: seq<Marker>, b: seq<Marker>, m: Mapping)
    ensures MapMarkers(a + b, m) == MapMarkers(a, m) + MapMarkers(b, m)
    decreases |b|
  {
    if |b| > 0 {
      var b' := b[..|b| - 1];
      assert (a + b)[..|a + b| - 1] == a + b';
      MapMarkersConcat(a, b', m);
    } else {
      assert a + b == a;
    }
  }

  /** The mapping of typing `k` characters at position `p`. */
  function Insertion(p: int, k: nat): Mapping {
    Mapping(x => if x < p then x else x + k, x => if x <= p then x else x + k)
  }

  lemma InsertionMonotone(p: int, k: nat)
    ensures Monotone(Insertion(p, k))
  {
  }

  lemma InsertionShiftsOne(markers: seq<Marker>, p: int, k: nat, mk: Marker)
    requires mk in markers && p < mk.from < mk.to
    ensures Marker(mk.from + k, mk.to + k, mk.payload) in MapMarkers(markers, Insertion(p, k))
  {
    var m := Insertion(p, k);
    assert m.startMap(mk.from) == mk.from + k && m.endMap(mk.to) == mk.to + k;
    MapMarkersKeeps(markers, m, mk);
  }

  lemma InsertionKeepsOne(markers: seq<Marker>, p: int, k: nat, mk: Marker)
    requires mk in markers && mk.from < mk.to <= p
    ensures mk in MapMarkers(markers, Insertion(p, k))
  {
    var m := Insertion(p, k);
    assert m.startMap(mk.from) == mk.from && m.endMap(mk.to) == mk.to;
    MapMarkersKeeps(markers, m, mk);
  }

  /** Typing before a marker shifts it by the number of characters typed; typing after
      it leaves it where it was; its payload stays what it was. */
  lemma InsertionShifts(markers: seq<Marker>, p: int, k: nat)
    requires forall i :: 0 <= i < |markers| ==> markers[i].from < markers[i].to
    ensures forall mk :: mk in markers && p < mk.from ==>
      Marker(mk.from + k, mk.to + k, mk.payload) in MapMarkers(markers, Insertion(p, k))
    ensures forall mk :: mk in markers && mk.to <= p ==> mk in MapMarkers(markers, Insertion(p, k))
  {
    forall mk | mk in markers && p < mk.from
      ensures Marker(mk.from + k, mk.to + k, mk.payload) in MapMarkers(markers, Insertion(p, k))
    {
      var i :| 0 <= i < |markers| && markers[i] == mk;
      InsertionShiftsOne(markers, p, k, mk);
    }
    forall mk | mk in markers && mk.to <= p
      ensures mk in MapMarkers(markers, Insertion(p, k))
    {
      var i :| 0 <= i < |markers| && markers[i] == mk;
      InsertionKeepsOne(markers, p, k, mk);
    }
  }

  /** The range a click on a marker offers to replace, as written: the one recorded in
      the payload when the marker was made. */
  function ClickRangeAsWritten(mk: Marker): (int, int) {
    (mk.payload.docFrom, mk.payload.docTo)
  }

  /** The range a click should offer: where the marker is now. */
  function ClickRange(mk: Marker): (int, int) {
    (mk.from, mk.to)
  }

  /** After typing `k > 0` characters before a freshly made marker, the range recorded in
      its payload no longer matches where the marker is, while the marker's own range has
      moved with the word. */
  lemma StalePayload(m: Match, base: int, p: int, k: nat)
    requires m.length > 0 && p < m.offset + base && k > 0
    ensures var mk := MarkerFor(m, base);
      var moved := MapMarkers([mk], Insertion(p, k));
      && |moved| == 1
      && ClickRange(moved[0]) == (mk.from + k, mk.to + k)
      && ClickRangeAsWritten(moved[0]) == (mk.from, mk.to)
      && ClickRangeAsWritten(moved[0]) != ClickRange(moved[0])
  {
    var mk := MarkerFor(m, base);
    assert [mk][..0] == [];
  }

  /** The corrected click range is always the marker's mapped range. */
  lemma ClickRangeFollowsMapping(markers: seq<Marker>, m: Mapping)
    ensures forall mk :: mk in MapMarkers(markers, m) ==>
      exists prev :: prev in markers && ClickRange(mk) == (m.startMap(prev.from), m.endMap(prev.to))
  {
    MapMarkersSound(markers, m);
  }
}
