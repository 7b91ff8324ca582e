/**
 Description history: the entries fetched for the recent window are reduced
 to the first entry of each distinct description, in fetch order, then to
 their description strings, cut to a limit. These are the suggestions offered
 when no description is given.
 */
module History {
  import opened Results

  /** A fetched time entry; only its description takes part in the history. */
  datatype HistoryEntry = HistoryEntry(id: string, description: string)

  /** How many suggestions are offered when no (or a zero) limit is given. */
  const DefaultLimit: int := 5

  /** The descriptions that occur in `es`. */
  ghost function DescriptionSet(es: seq<HistoryEntry>): set<string>
  {
    set i | 0 <= i < |es| :: es[i].description
  }

  /** No description occurs twice in `es`. */
  ghost predicate DistinctDescriptions(es: seq<HistoryEntry>)
  {
    forall i, j :: 0 <= i < j < |es| ==> es[i].description != es[j].description
  }

  lemma DescriptionSetCons(es: seq<HistoryEntry>)
    requires |es| > 0
    ensures DescriptionSet(es) == {es[0].description} + DescriptionSet(es[1..])
  {
  }

  /**
   lodash `uniqBy` keyed on the description, walking the entries left to
   right and keeping an entry exactly when its description is not yet in
   `seen`. The kept entries are entries of `data`, carry no description twice,
   and cover every description of `data` that was not seen before.
   */
  function UniqFrom(data: seq<HistoryEntry>, seen: set<string>): (r: seq<HistoryEntry>)
    ensures DistinctDescriptions(r)
    ensures DescriptionSet(r) == DescriptionSet(data) - seen
    ensures forall k :: 0 <= k < |r| ==> r[k] in data
    decreases |data|
  {
    if |data| == 0 then []
    else
      DescriptionSetCons(data);
      if data[0].description in seen then
        UniqFrom(data[1..], seen)
      else
        var rest := UniqFrom(data[1..], seen + {data[0].description});
        DescriptionSetCons([data[0]] + rest);
        assert ([data[0]] + rest)[1..] == rest;
        [data[0]] + rest
  }

  /** `removeDuplicates(data, 'description')`: the first entry of each description, in order. */
  function RemoveDuplicates(data: seq<HistoryEntry>): (r: seq<HistoryEntry>)
    ensures DistinctDescriptions(r)
    ensures DescriptionSet(r) == DescriptionSet(data)
    ensures forall k :: 0 <= k < |r| ==> r[k] in data
  {
    UniqFrom(data, {})
  }

  // ---------------------------------------------------------------------------
  // An independent description of the deduplicated list

  /**
   Reference definition: the entries of `data` whose description does not
   occur anywhere before them, in the order they appear.
   */
  ghost function FirstOccurrences(data: seq<HistoryEntry>): seq<HistoryEntry>
    decreases |data|
  {
    if |data| == 0 then []
    else
      var n := |data| - 1;
      FirstOccurrences(data[..n])
        + (if data[n].description in DescriptionSet(data[..n]) then [] else [data[n]])
  }

  /** Walking a concatenation is walking the first part, then the second with the first part's descriptions seen. */
  lemma {:induction false} UniqFromConcat(a: seq<HistoryEntry>, b: seq<HistoryEntry>, seen: set<string>)
    ensures UniqFrom(a + b, seen) == UniqFrom(a, seen) + UniqFrom(b, seen + DescriptionSet(a))
    decreases |a|
  {
    if |a| == 0 {
      assert a + b == b;
      assert seen + DescriptionSet(a) == seen;
    } else {
      DescriptionSetCons(a);
      assert (a + b)[0] == a[0];
      assert (a + b)[1..] == a[1..] + b;
      if a[0].description in seen {
        UniqFromConcat(a[1..], b, seen);
        assert seen + DescriptionSet(a[1..]) == seen + DescriptionSet(a);
      } else {
        var seen' := seen + {a[0].description};
        UniqFromConcat(a[1..], b, seen');
        assert seen' + DescriptionSet(a[1..]) == seen + DescriptionSet(a);
      }
    }
  }

  /** `removeDuplicates` keeps exactly the first occurrence of each description, in input order. */
  lemma {:induction false} RemoveDuplicatesIsFirstOccurrences(data: seq<HistoryEntry>)
    ensures RemoveDuplicates(data) == FirstOccurrences(data)
    decreases |data|
  {
    if |data| > 0 {
      var n := |data| - 1;
      assert data == data[..n] + [data[n]];
      UniqFromConcat(data[..n], [data[n]], {});
      RemoveDuplicatesIsFirstOccurrences(data[..n]);
    }
  }

  /** A list with no repeated description, none of them seen, is walked unchanged. */
  lemma {:induction false} UniqFromDistinct(a: seq<HistoryEntry>, seen: set<string>)
    requires DistinctDescriptions(a)
    requires DescriptionSet(a) !! seen
    ensures UniqFrom(a, seen) == a
    decreases |a|
  {
    if |a| > 0 {
      DescriptionSetCons(a);
      var rest, seen' := a[1..], seen + {a[0].description};
      assert a[0].description !in seen;
      forall i | 0 <= i < |rest|
        ensures rest[i].description != a[0].description
      {
        assert rest[i] == a[i + 1];
      }
      assert a[0].description !in DescriptionSet(rest);
      assert DistinctDescriptions(rest) by {
        forall i, j | 0 <= i < j < |rest|
          ensures rest[i].description != rest[j].description
        {
          assert rest[i] == a[i + 1] && rest[j] == a[j + 1];
        }
      }
      UniqFromDistinct(rest, seen');
      assert UniqFrom(a, seen) == [a[0]] + UniqFrom(rest, seen');
      assert a == [a[0]] + rest;
    }
  }

  /** Deduplicating twice gives the same list as deduplicating once. */
  lemma RemoveDuplicatesIdempotent(data: seq<HistoryEntry>)
    ensures RemoveDuplicates(RemoveDuplicates(data)) == RemoveDuplicates(data)
  {
    UniqFromDistinct(RemoveDuplicates(data), {});
  }

  // ---------------------------------------------------------------------------
  // Suggestions

  /** `.map(t => t.description)`. */
  function Descriptions(es: seq<HistoryEntry>): (r: seq<string>)
    ensures |r| == |es|
    ensures forall i :: 0 <= i < |es| ==> r[i] == es[i].description
  {
    seq(|es|, i requires 0 <= i < |es| => es[i].description)
  }

  /** The limit `getLatestDescriptions` uses: an absent or zero (falsy) limit becomes the default. */
  function EffectiveLimit(limit: Option<int>): (n: int)
    ensures n != 0
    ensures limit.Some? && limit.value != 0 ==> n == limit.value
    ensures limit.None? || limit.value == 0 ==> n == DefaultLimit
  {
    if limit.None? || limit.value == 0 then DefaultLimit else limit.value
  }

  /**
   Where `Array.prototype.slice(0, end)` stops for an integer `end`: a
   negative end counts back from the length, and both ends are clamped.
   */
  function SliceEnd(end: int, len: nat): (k: nat)
    ensures k <= len
  {
    if end < 0 then (if len + end < 0 then 0 else len + end)
    else if end < len then end
    else len
  }

  /**
   `getLatestDescriptions` after the fetch: the distinct descriptions in
   first-seen order, cut to the effective limit.
   */
  function LatestDescriptions(entries: seq<HistoryEntry>, limit: Option<int>): (r: seq<string>)
    ensures |r| <= |RemoveDuplicates(entries)|
    ensures r == Descriptions(RemoveDuplicates(entries))[..|r|]
    ensures forall i, j :: 0 <= i < j < |r| ==> r[i] != r[j]
    ensures forall i :: 0 <= i < |r| ==> r[i] in DescriptionSet(entries)
    ensures var n := EffectiveLimit(limit); var d := |RemoveDuplicates(entries)|;
      && (n >= 0 ==> |r| == if n < d then n else d)
      && (n < 0 ==> |r| == if d + n < 0 then 0 else d + n)
  {
    var all := Descriptions(RemoveDuplicates(entries));
    var r := all[..SliceEnd(EffectiveLimit(limit), |all|)];
    assert forall i :: 0 <= i < |r| ==> r[i] == RemoveDuplicates(entries)[i].description;
    r
  }

  /** With a positive limit, or none, there are at most that many (or five) suggestions. */
  lemma SuggestionsBounded(entries: seq<HistoryEntry>, limit: Option<int>)
    ensures limit.Some? && limit.value > 0 ==> |LatestDescriptions(entries, limit)| <= limit.value
    ensures limit.None? || limit.value == 0 ==> |LatestDescriptions(entries, limit)| <= DefaultLimit
    ensures limit.None? ==> LatestDescriptions(entries, limit) == LatestDescriptions(entries, Some(DefaultLimit))
    ensures limit.Some? && limit.value == 0 ==> LatestDescriptions(entries, limit) == LatestDescriptions(entries, None)
  {
  }

  /** Two fetched entries `foo`, `bar` with no limit give `['foo', 'bar']`; with limit 1, `['foo']`. */
  lemma FooBarSuggestions(entries: seq<HistoryEntry>)
    requires entries == [HistoryEntry("1", "foo"), HistoryEntry("2", "bar")]
    ensures LatestDescriptions(entries, None) == ["foo", "bar"]
    ensures LatestDescriptions(entries, Some(1)) == ["foo"]
  {
    assert RemoveDuplicates(entries) == entries by {
      assert entries[0].description != entries[1].description;
      UniqFromDistinct(entries, {});
    }
  }

  /** A repeated description is offered once, at its first position. */
  lemma RepeatedSuggestion(entries: seq<HistoryEntry>)
    requires entries == [HistoryEntry("1", "a"), HistoryEntry("2", "a"), HistoryEntry("3", "b")]
    ensures LatestDescriptions(entries, Some(5)) == ["a", "b"]
  {
    var e0, e2 := entries[0], entries[2];
    assert entries[1..][0].description == "a";
    assert entries[1..][1..] == [e2];
    assert UniqFrom([e2], {"a"}) == [e2] + UniqFrom([], {"a", "b"});
    assert UniqFrom(entries[1..], {"a"}) == UniqFrom([e2], {"a"});
    assert entries[0].description !in {};
    var seen: set<string> := {};
    assert seen + {entries[0].description} == {"a"};
    assert UniqFrom(entries, seen) == [e0] + UniqFrom(entries[1..], {"a"});
  }
}
