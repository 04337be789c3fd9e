/**
 * Admission of trending post IDs into the in-memory pending list: the
 * listing response is a sequence of ID strings; each is trimmed and parsed
 * as a `u32`, and appended to `poi` unless it is already pending or already
 * processed.
 */
module Poi {
  import opened Wrappers
  import opened Decimal

  /** Why the listing call produced no list: the request, reading the body
      or decoding the JSON failed. */
  datatype ListError = RequestFailed | ReadFailed | JsonFailed

  /** What the listing endpoint gave back: an error, or the `items` array. */
  datatype Listing = Unlisted(error: ListError) | Listed(items: seq<string>)

  /** The ID an entry names: its trimmed text parsed as a `u32`. */
  function EntryId(item: string): Option<u32> {
    ParseU32(Trim(item))
  }

  /** An entry names an ID exactly when, once the surrounding whitespace is
      dropped, it is a `u32` literal; the ID is that literal's value. */
  lemma EntryIdMeaning(item: string)
    ensures EntryId(item).Some? <==> IsU32Literal(Trim(item))
    ensures EntryId(item).Some? ==> EntryId(item).value == DigitsValue(Unsigned(Trim(item)))
  {
  }

  /** The IDs named by the entries, in order, unparseable entries dropped. */
  function ListedIds(items: seq<string>): seq<u32> {
    if items == [] then []
    else
      (match EntryId(items[0]) case None => [] case Some(id) => [id]) + ListedIds(items[1..])
  }

  /** One turn of the admission loop: push the entry's ID if it parses and
      is in neither `processed` nor `poi`. */
  function AdmitEntry(poi: seq<u32>, processed: set<u32>, item: string): seq<u32> {
    match EntryId(item)
    case None => poi
    case Some(id) => if id in processed || id in poi then poi else poi + [id]
  }

  /** The whole admission loop over the listed entries, first to last. */
  function AdmitAll(poi: seq<u32>, processed: set<u32>, items: seq<string>): seq<u32>
    decreases |items|
  {
    if items == [] then poi
    else AdmitAll(AdmitEntry(poi, processed, items[0]), processed, items[1..])
  }

  predicate Distinct(s: seq<u32>) {
    forall i, j :: 0 <= i < j < |s| ==> s[i] != s[j]
  }

  /** Position of the first occurrence of `x` in `s`. */
  function FirstIndex(s: seq<u32>, x: u32): (k: nat)
    requires x in s
    ensures k < |s| && s[k] == x && x !in s[..k]
  {
    if s[0] == x then 0 else 1 + FirstIndex(s[1..], x)
  }

  /** How the pending list may change in one admission pass: `after`
      extends `before`, each appended ID is neither processed nor already
      pending, and a duplicate-free list stays duplicate-free. */
  predicate Grown(before: seq<u32>, after: seq<u32>, processed: set<u32>) {
    && before <= after
    && (forall k :: |before| <= k < |after| ==> after[k] !in processed && after[k] !in before)
    && (Distinct(before) ==> Distinct(after))
  }

  /** In-memory shared state: the session token, the pending list and the
      set of processed IDs. */
  class Storage {
    var token: string
    var poi: seq<u32>
    var processedPoi: set<u32>

    /** `get_poi` once the listing call has produced `listing`. A failed
        listing returns its error before `poi` is touched; otherwise every
        entry is run through the admission loop. `processedPoi` never
        changes. */
    method GetPoi(listing: Listing) returns (r: Result<(), ListError>)
      modifies this`poi
      ensures listing.Unlisted? ==> r == Failure(listing.error) && poi == old(poi)
      ensures listing.Listed? ==> r == Success(()) && poi == AdmitAll(old(poi), processedPoi, listing.items)
      ensures Grown(old(poi), poi, processedPoi)
    {
      match listing
      case Unlisted(e) =>
        return Failure(e);
      case Listed(items) =>
        ghost var admitted := AdmitAll(poi, processedPoi, items);
        var i := 0;
        assert items[i..] == items;
        while i < |items|
          invariant 0 <= i <= |items|
          invariant AdmitAll(poi, processedPoi, items[i..]) == admitted
        {
          ghost var before := poi;
          match EntryId(items[i]) {
            case Some(id) =>
              if !(id in processedPoi || id in poi) {
                poi := poi + [id];
              }
            case None =>
          }
          assert poi == AdmitEntry(before, processedPoi, items[i]);
          AdmitAllStep(before, processedPoi, items, i);
          assert AdmitAll(poi, processedPoi, items[i + 1..]) == admitted;
          i := i + 1;
        }
        assert items[i..] == [];
        AdmitAllGrown(old(poi), processedPoi, items);
        return Success(());
    }
  }

  // -----------------------------------------------------------------------
  // Properties of the admission loop

  /** One turn of the loop: admitting from entry `i` on is admitting entry
      `i`, then the rest. */
  lemma AdmitAllStep(poi: seq<u32>, processed: set<u32>, items: seq<string>, i: nat)
    requires i < |items|
    ensures AdmitAll(poi, processed, items[i..])
         == AdmitAll(AdmitEntry(poi, processed, items[i]), processed, items[i + 1..])
  {
    assert items[i..][1..] == items[i + 1..];
  }

  /** `poi` only grows by appending, at most one ID per entry. */
  lemma {:induction false} AdmitAllExtends(poi: seq<u32>, processed: set<u32>, items: seq<string>)
    ensures poi <= AdmitAll(poi, processed, items)
    ensures |AdmitAll(poi, processed, items)| <= |poi| + |items|
    decreases |items|
  {
    if items != [] {
      AdmitAllExtends(AdmitEntry(poi, processed, items[0]), processed, items[1..]);
    }
  }

  /** An appended ID was in neither `processed` nor the pending list that
      preceded it. */
  lemma {:induction false} AdmitAllFresh(poi: seq<u32>, processed: set<u32>, items: seq<string>)
    ensures var r := AdmitAll(poi, processed, items);
      forall k :: |poi| <= k < |r| ==> r[k] !in processed && r[k] !in poi
    decreases |items|
  {
    if items != [] {
      var next := AdmitEntry(poi, processed, items[0]);
      AdmitAllFresh(next, processed, items[1..]);
      AdmitAllExtends(next, processed, items[1..]);
    }
  }

  /** Membership after admission: an ID is pending afterwards exactly when
      it was pending before, or it is not processed and some entry names it. */
  lemma {:induction false} AdmitAllMembers(poi: seq<u32>, processed: set<u32>, items: seq<string>, x: u32)
    ensures x in AdmitAll(poi, processed, items)
        <==> x in poi || (x !in processed && x in ListedIds(items))
    decreases |items|
  {
    if items != [] {
      var next := AdmitEntry(poi, processed, items[0]);
      AdmitAllMembers(next, processed, items[1..], x);
    }
  }

  /** The admission loop changes the pending list only as `Grown` allows. */
  lemma AdmitAllGrown(poi: seq<u32>, processed: set<u32>, items: seq<string>)
    ensures Grown(poi, AdmitAll(poi, processed, items), processed)
  {
    AdmitAllExtends(poi, processed, items);
    AdmitAllFresh(poi, processed, items);
    if Distinct(poi) {
      AdmitAllDistinct(poi, processed, items);
    }
  }

  /** No duplicate is ever introduced, even when the listing repeats an ID. */
  lemma {:induction false} AdmitAllDistinct(poi: seq<u32>, processed: set<u32>, items: seq<string>)
    requires Distinct(poi)
    ensures Distinct(AdmitAll(poi, processed, items))
    decreases |items|
  {
    if items != [] {
      AdmitAllDistinct(AdmitEntry(poi, processed, items[0]), processed, items[1..]);
    }
  }

  lemma FirstIndexCons(a: u32, s: seq<u32>, x: u32)
    requires x in s && x != a
    ensures FirstIndex([a] + s, x) == 1 + FirstIndex(s, x)
  {
    assert ([a] + s)[1..] == s;
  }

  /** From position `from` on, `r` holds IDs of `ids` in the order of
      their first occurrence there. */
  predicate FirstSeenOrder(r: seq<u32>, from: nat, ids: seq<u32>) {
    && (forall k :: from <= k < |r| ==> r[k] in ids)
    && (forall p, q :: from <= p < q < |r| ==> FirstIndex(ids, r[p]) < FirstIndex(ids, r[q]))
  }

  /** Prefixing the ID sequence with one that does not occur in the
      suffix of `r` keeps that suffix ordered. */
  lemma FirstSeenShift(r: seq<u32>, from: nat, id: u32, tail: seq<u32>)
    requires FirstSeenOrder(r, from, tail)
    requires forall k :: from <= k < |r| ==> r[k] != id
    ensures FirstSeenOrder(r, from, [id] + tail)
  {
    forall k | from <= k < |r|
      ensures r[k] in [id] + tail && FirstIndex([id] + tail, r[k]) == 1 + FirstIndex(tail, r[k])
    {
      FirstIndexCons(id, tail, r[k]);
    }
  }

  /** An ordered suffix preceded by the first ID of the sequence is ordered. */
  lemma FirstSeenPrepend(r: seq<u32>, from: nat, id: u32, tail: seq<u32>)
    requires from < |r| && r[from] == id
    requires FirstSeenOrder(r, from + 1, tail)
    requires forall k :: from + 1 <= k < |r| ==> r[k] != id
    ensures FirstSeenOrder(r, from, [id] + tail)
  {
    FirstSeenShift(r, from + 1, id, tail);
    assert FirstIndex([id] + tail, id) == 0;
  }

  /** New IDs are appended in the order of their first occurrence in the
      listing. */
  lemma {:induction false} AdmitAllOrder(poi: seq<u32>, processed: set<u32>, items: seq<string>)
    ensures FirstSeenOrder(AdmitAll(poi, processed, items), |poi|, ListedIds(items))
    decreases |items|
  {
    if items != [] {
      var next := AdmitEntry(poi, processed, items[0]);
      var rest := items[1..];
      var r := AdmitAll(poi, processed, items);
      assert r == AdmitAll(next, processed, rest);
      AdmitAllOrder(next, processed, rest);
      match EntryId(items[0]) {
        case None =>
          assert ListedIds(items) == ListedIds(rest);
        case Some(id) =>
          assert ListedIds(items) == [id] + ListedIds(rest);
          assert id in processed || id in next;
          AdmitAllFresh(next, processed, rest);
          if next == poi {
            FirstSeenShift(r, |poi|, id, ListedIds(rest));
          } else {
            AdmitAllExtends(next, processed, rest);
            assert r[|poi|] == next[|poi|] == id;
            FirstSeenPrepend(r, |poi|, id, ListedIds(rest));
          }
      }
    }
  }

  /** Every appended ID is named by some entry. */
  lemma AdmitAllListed(poi: seq<u32>, processed: set<u32>, items: seq<string>)
    ensures var r := AdmitAll(poi, processed, items);
      forall k :: |poi| <= k < |r| ==> r[k] in ListedIds(items)
  {
    var r := AdmitAll(poi, processed, items);
    AdmitAllFresh(poi, processed, items);
    forall k | |poi| <= k < |r|
      ensures r[k] in ListedIds(items)
    {
      AdmitAllMembers(poi, processed, items, r[k]);
    }
  }

  /** Admitting the same listing twice adds nothing the second time. */
  lemma {:induction false} AdmitAllIdempotent(poi: seq<u32>, processed: set<u32>, items: seq<string>)
    ensures var r := AdmitAll(poi, processed, items);
      AdmitAll(r, processed, items) == r
  {
    var r := AdmitAll(poi, processed, items);
    forall x | x in ListedIds(items) && x !in processed
      ensures x in r
    {
      AdmitAllMembers(poi, processed, items, x);
    }
    AdmitAllFixed(r, processed, items);
  }

  /** A list that already holds every admissible listed ID is left alone. */
  lemma {:induction false} AdmitAllFixed(poi: seq<u32>, processed: set<u32>, items: seq<string>)
    requires forall x :: x in ListedIds(items) && x !in processed ==> x in poi
    ensures AdmitAll(poi, processed, items) == poi
    decreases |items|
  {
    if items != [] {
      assert AdmitEntry(poi, processed, items[0]) == poi;
      AdmitAllFixed(poi, processed, items[1..]);
    }
  }

  lemma ExampleEntries()
    ensures EntryId("12a") == None && EntryId("77") == Some(77)
  {
    VisibleNotWhitespace('1');
    VisibleNotWhitespace('a');
    VisibleNotWhitespace('7');
    TrimKeeps("12a");
    TrimKeeps("77");
    RejectsTrailingLetter();
    assert Unsigned("77") == "77";
    assert DigitsValue("77") == 77 by { assert "77"[..1] == "7"; assert "7"[..0] == ""; }
  }

  /** A malformed entry followed by a repeated well-formed one, on an
      empty state, admits the well-formed ID once. */
  lemma AdmitSkipsAndDedups(bad: string, good: string, id: u32)
    requires EntryId(bad) == None && EntryId(good) == Some(id)
    ensures AdmitAll([], {}, [bad, good, good]) == [id]
  {
    AdmitSkips(bad, [good, good]);
    AdmitDedups(good, id);
  }

  /** A malformed first entry leaves the state as it was. */
  lemma AdmitSkips(bad: string, rest: seq<string>)
    requires EntryId(bad) == None
    ensures AdmitAll([], {}, [bad] + rest) == AdmitAll([], {}, rest)
  {
    AdmitAllCons([], bad, rest);
  }

  /** Two entries naming the same ID admit it once. */
  lemma AdmitDedups(good: string, id: u32)
    requires EntryId(good) == Some(id)
    ensures AdmitAll([], {}, [good, good]) == [id]
  {
    assert [good, good] == [good] + [good];
    AdmitAllCons([], good, [good]);
    AdmitAllCons([id], good, []);
  }

  lemma AdmitAllCons(poi: seq<u32>, item: string, rest: seq<string>)
    ensures AdmitAll(poi, {}, [item] + rest) == AdmitAll(AdmitEntry(poi, {}, item), {}, rest)
  {
    assert ([item] + rest)[1..] == rest;
  }

  /** A listing of `["12a", "77", "77"]` on an empty state adds 77 once:
      the malformed entry is skipped and the repeat is not pushed again. */
  lemma AdmitExample()
    ensures AdmitAll([], {}, ["12a", "77", "77"]) == [77]
  {
    ExampleEntries();
    AdmitSkipsAndDedups("12a", "77", 77);
  }
}
