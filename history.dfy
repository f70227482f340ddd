/**
 The history store of the main process: a newest-first list of saved texts,
 capped at one hundred entries, persisted as a whole.
 */
module History {
  import opened Storage
  import Text

  datatype HistoryEntry = HistoryEntry(id: string, text: string, createdAt: string)

  type HistoryFile = File<seq<HistoryEntry>>

  /** The number of entries kept after a save. */
  const MAX_ENTRIES: nat := 100

  /** `loadHistory`: the stored list, or the empty list when the file is
      missing or unreadable. */
  function LoadHistory(f: HistoryFile): (r: seq<HistoryEntry>)
    ensures f.Stored? ==> r == f.content
    ensures !f.Stored? ==> r == []
  {
    LoadOr(f, [])
  }

  /** The list a non-blank save produces from the loaded list `h`
      (`history.unshift(entry)` then `history.splice(100)`): the new entry
      first, then the first 99 entries of `h` in their previous order. */
  function Record(h: seq<HistoryEntry>, e: HistoryEntry): (r: seq<HistoryEntry>)
    ensures 1 <= |r| <= MAX_ENTRIES
    ensures r[0] == e
    ensures |r| == if |h| < MAX_ENTRIES then |h| + 1 else MAX_ENTRIES
    ensures forall i :: 1 <= i < |r| ==> r[i] == h[i - 1]
  {
    var l := [e] + h;
    if |l| > MAX_ENTRIES then l[..MAX_ENTRIES] else l
  }

  /** `history.filter(h => h.id !== id)`. */
  function Remove(h: seq<HistoryEntry>, id: string): (r: seq<HistoryEntry>)
    ensures forall i :: 0 <= i < |r| ==> r[i].id != id
  {
    if h == [] then []
    else if h[0].id == id then Remove(h[1..], id)
    else [h[0]] + Remove(h[1..], id)
  }

  /** Deleting removes exactly the entries carrying `id`: an entry survives
      if and only if it was there and carries another id. */
  lemma {:induction false} RemoveMembers(h: seq<HistoryEntry>, id: string, e: HistoryEntry)
    ensures e in Remove(h, id) <==> e in h && e.id != id
  {
    if h != [] {
      RemoveMembers(h[1..], id, e);
      assert e in h <==> e == h[0] || e in h[1..];
    }
  }

  /** Removing keeps the surviving entries in their relative order: the
      filter of a concatenation is the concatenation of the filters. */
  lemma {:induction false} RemoveAppend(a: seq<HistoryEntry>, b: seq<HistoryEntry>, id: string)
    ensures Remove(a + b, id) == Remove(a, id) + Remove(b, id)
  {
    if a == [] {
      assert a + b == b;
    } else {
      var t := a[1..] + b;
      assert Remove(a + b, id) == if a[0].id == id then Remove(t, id) else [a[0]] + Remove(t, id) by {
        assert (a + b)[0] == a[0] && (a + b)[1..] == t;
      }
      RemoveAppend(a[1..], b, id);
    }
  }

  /** Removing an id no entry carries leaves the list as it was. */
  lemma {:induction false} RemoveAbsent(h: seq<HistoryEntry>, id: string)
    requires forall i :: 0 <= i < |h| ==> h[i].id != id
    ensures Remove(h, id) == h
  {
    if h != [] {
      RemoveAbsent(h[1..], id);
      assert [h[0]] + h[1..] == h;
    }
  }

  /** Deleting twice is deleting once. */
  lemma RemoveIdempotent(h: seq<HistoryEntry>, id: string)
    ensures Remove(Remove(h, id), id) == Remove(h, id)
  {
    RemoveAbsent(Remove(h, id), id);
  }

  /** The number of entries of `h` that carry `id`. */
  function CountId(h: seq<HistoryEntry>, id: string): nat
  {
    if h == [] then 0 else (if h[0].id == id then 1 else 0) + CountId(h[1..], id)
  }

  /** Exactly the entries carrying `id` are dropped: the length falls by
      their number. */
  lemma {:induction false} RemoveLength(h: seq<HistoryEntry>, id: string)
    ensures |Remove(h, id)| == |h| - CountId(h, id)
  {
    if h != [] {
      RemoveLength(h[1..], id);
    }
  }

  /** The cap the store keeps once it has been written by a save or a delete. */
  predicate WithinCap(f: HistoryFile)
  {
    f.Stored? ==> |f.content| <= MAX_ENTRIES
  }

  /** A save applied to a loaded list, as `save-to-history` does it: a blank
      text leaves the list alone (the stored text is never trimmed). */
  function Save(h: seq<HistoryEntry>, e: HistoryEntry): seq<HistoryEntry>
  {
    if Text.IsBlank(e.text) then h else Record(h, e)
  }

  /** A run of saves, the first request applied first. */
  function SaveAll(h: seq<HistoryEntry>, es: seq<HistoryEntry>): seq<HistoryEntry>
    decreases |es|
  {
    if es == [] then h else Save(SaveAll(h, es[..|es| - 1]), es[|es| - 1])
  }

  /** `s` reversed. */
  function Reverse<T>(s: seq<T>): (r: seq<T>)
    ensures |r| == |s|
    ensures forall i :: 0 <= i < |s| ==> r[i] == s[|s| - 1 - i]
  {
    if s == [] then [] else [s[|s| - 1]] + Reverse(s[..|s| - 1])
  }

  /** The first `n` elements of `s`, or all of it when it is shorter. */
  function Take<T>(s: seq<T>, n: nat): seq<T>
  {
    if |s| <= n then s else s[..n]
  }

  /** Saving onto a list already cut at the cap is saving onto the whole
      list and cutting once. */
  lemma RecordTake(x: seq<HistoryEntry>, e: HistoryEntry)
    ensures Record(Take(x, MAX_ENTRIES), e) == Take([e] + x, MAX_ENTRIES)
  {
    var r := Record(Take(x, MAX_ENTRIES), e);
    var want := Take([e] + x, MAX_ENTRIES);
    assert |r| == |want|;
    forall i | 0 <= i < |r| ensures r[i] == want[i] {
      if i > 0 {
        assert r[i] == Take(x, MAX_ENTRIES)[i - 1];
      }
    }
  }

  /** The last request of a run of non-blank saves is recorded on top of the
      list the earlier ones left. */
  lemma SaveAllLast(h: seq<HistoryEntry>, es: seq<HistoryEntry>)
    requires es != [] && !Text.IsBlank(es[|es| - 1].text)
    ensures SaveAll(h, es) == Record(SaveAll(h, es[..|es| - 1]), es[|es| - 1])
  {
  }

  /** The retention policy over any run of non-blank saves: the history holds
      the most recently saved entries, newest first, followed by the entries
      that were there before, cut at one hundred. Order is that of insertion,
      not of the timestamps. */
  lemma {:induction false} SaveAllKeepsMostRecent(h: seq<HistoryEntry>, es: seq<HistoryEntry>)
    requires es != []
    requires forall i :: 0 <= i < |es| ==> !Text.IsBlank(es[i].text)
    ensures SaveAll(h, es) == Take(Reverse(es) + h, MAX_ENTRIES)
  {
    var e := es[|es| - 1];
    var init := es[..|es| - 1];
    SaveAllLast(h, es);
    assert Reverse(es) + h == [e] + (Reverse(init) + h) by {
      assert Reverse(es) == [e] + Reverse(init);
    }
    if init == [] {
      assert Reverse(init) + h == h;
      assert SaveAll(h, init) == h;
    } else {
      SaveAllKeepsMostRecent(h, init);
      RecordTake(Reverse(init) + h, e);
    }
  }
}
