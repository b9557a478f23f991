/**
 * The image memory cache: an access-ordered map from image id to bitmap and
 * a running byte counter. After each insertion, least-recently-used entries
 * are evicted until the counter fits under the limit.
 *
 * The access-ordered map is a sequence of entries, least recently used
 * first, with distinct ids. A lookup that finds an id moves its entry to the
 * end; a plain membership test does not.
 */
module MemoryCache {
  import opened JavaLang

  /** A bitmap, reduced to what its byte size depends on. */
  datatype Bitmap = Bitmap(rowBytes: int, height: int)

  /** A map entry; the stored bitmap may be null. */
  datatype Entry = Entry(id: string, bitmap: Option<Bitmap>)

  /** The whole observable cache state. */
  datatype Cache = Cache(entries: seq<Entry>, size: int, limit: int)

  /**
   * Bytes a bitmap occupies: 0 for null, otherwise rowBytes * height. Both
   * factors are Java ints, so the product wraps around before it is widened.
   */
  function SizeInBytes(b: Option<Bitmap>): (n: int)
    ensures IsInt32(n)
    ensures b.None? ==> n == 0
    ensures b.Some? && IsInt32(b.value.rowBytes * b.value.height) ==> n == b.value.rowBytes * b.value.height
  {
    match b
    case None => 0
    case Some(bmp) => Wrap32(bmp.rowBytes * bmp.height)
  }

  predicate DistinctIds(es: seq<Entry>)
  {
    forall i, j :: 0 <= i < j < |es| ==> es[i].id != es[j].id
  }

  predicate Contains(es: seq<Entry>, id: string)
  {
    exists e :: e in es && e.id == id
  }

  /** The bitmap stored under `id`; None when absent or when null is stored. */
  function Lookup(es: seq<Entry>, id: string): Option<Bitmap>
  {
    if es == [] then None
    else if es[0].id == id then es[0].bitmap
    else Lookup(es[1..], id)
  }

  /** The entries other than the one for `id`, in their order. */
  function Without(es: seq<Entry>, id: string): (r: seq<Entry>)
    ensures forall e :: e in r <==> e in es && e.id != id
  {
    if es == [] then []
    else if es[0].id == id then Without(es[1..], id)
    else [es[0]] + Without(es[1..], id)
  }

  /** The sum of the byte sizes of the entries. */
  function Total(es: seq<Entry>): int
  {
    if es == [] then 0 else SizeInBytes(es[0].bitmap) + Total(es[1..])
  }

  /** The counter agrees with the entries it accounts for. */
  predicate Accounted(c: Cache)
  {
    c.size == Total(c.entries)
  }

  // ---------------------------------------------------------------------
  // The operations, as functions of the cache state
  // ---------------------------------------------------------------------

  /**
   * How many of the oldest entries the eviction loop removes when it starts
   * over the limit: it removes one at a time and stops right after the
   * counter drops to the limit or below, or when the map is empty.
   */
  function EvictCount(es: seq<Entry>, size: int, limit: int): (k: nat)
    ensures k <= |es|
    ensures es != [] ==> k >= 1
  {
    if es == [] then 0
    else if size - SizeInBytes(es[0].bitmap) <= limit then 1
    else 1 + EvictCount(es[1..], size - SizeInBytes(es[0].bitmap), limit)
  }

  function CheckSizeF(c: Cache): Cache
  {
    if c.size > c.limit then
      var k := EvictCount(c.entries, c.size, c.limit);
      Cache(c.entries[k..], c.size - Total(c.entries[..k]), c.limit)
    else c
  }

  function GetF(c: Cache, id: string): (Cache, Option<Bitmap>)
  {
    if !Contains(c.entries, id) then (c, None)
    else
      var b := Lookup(c.entries, id);
      (Cache(Without(c.entries, id) + [Entry(id, b)], c.size, c.limit), b)
  }

  /** The state put builds before it calls checkSize: the old entry's size released, the new one's added. */
  function Staged(c: Cache, id: string, b: Option<Bitmap>): Cache
  {
    var released := if Contains(c.entries, id) then SizeInBytes(Lookup(c.entries, id)) else 0;
    Cache(Without(c.entries, id) + [Entry(id, b)], c.size - released + SizeInBytes(b), c.limit)
  }

  function PutF(c: Cache, id: string, b: Option<Bitmap>): Cache
  {
    CheckSizeF(Staged(c, id, b))
  }

  /** Removing an entry leaves the counter untouched. */
  function RemoveF(c: Cache, id: string): Cache
  {
    Cache(Without(c.entries, id), c.size, c.limit)
  }

  function ClearF(c: Cache): Cache
  {
    Cache([], 0, c.limit)
  }

  // ---------------------------------------------------------------------
  // Helper facts about entry sequences
  // ---------------------------------------------------------------------

  lemma {:induction false} TotalAppend(a: seq<Entry>, b: seq<Entry>)
    ensures Total(a + b) == Total(a) + Total(b)
    decreases |a|
  {
    if a == [] {
      assert a + b == b;
    } else {
      assert (a + b)[0] == a[0];
      assert (a + b)[1..] == a[1..] + b;
      TotalAppend(a[1..], b);
    }
  }

  lemma TotalPrefixStep(es: seq<Entry>, j: nat)
    requires j < |es|
    ensures Total(es[..j + 1]) == Total(es[..j]) + SizeInBytes(es[j].bitmap)
  {
    assert es[..j + 1] == es[..j] + [es[j]];
    TotalAppend(es[..j], [es[j]]);
  }

  lemma {:induction false} WithoutAbsent(es: seq<Entry>, id: string)
    requires !Contains(es, id)
    ensures Without(es, id) == es
    decreases |es|
  {
    if es != [] {
      assert es[0] in es;
      assert !Contains(es[1..], id) by {
        forall e | e in es[1..] ensures e.id != id { assert e in es; }
      }
      WithoutAbsent(es[1..], id);
    }
  }

  lemma {:induction false} WithoutAppend(a: seq<Entry>, b: seq<Entry>, id: string)
    ensures Without(a + b, id) == Without(a, id) + Without(b, id)
    decreases |a|
  {
    if a == [] {
      assert a + b == b;
    } else {
      assert (a + b)[0] == a[0];
      assert (a + b)[1..] == a[1..] + b;
      WithoutAppend(a[1..], b, id);
    }
  }

  lemma {:induction false} LookupFound(es: seq<Entry>, i: nat)
    requires DistinctIds(es) && i < |es|
    ensures Lookup(es, es[i].id) == es[i].bitmap
    decreases i
  {
    if i > 0 {
      LookupFound(es[1..], i - 1);
    }
  }

  lemma {:induction false} TotalWithout(es: seq<Entry>, id: string)
    requires DistinctIds(es)
    ensures Total(Without(es, id)) == Total(es) - (if Contains(es, id) then SizeInBytes(Lookup(es, id)) else 0)
    decreases |es|
  {
    if es == [] {
    } else if es[0].id == id {
      assert !Contains(es[1..], id) by {
        forall e | e in es[1..] ensures e.id != id {
          var j :| 0 <= j < |es[1..]| && es[1..][j] == e;
          assert es[j + 1] == e;
        }
      }
      WithoutAbsent(es[1..], id);
      assert Contains(es, id) by { assert es[0] in es; }
    } else {
      TotalWithout(es[1..], id);
      assert Contains(es, id) <==> Contains(es[1..], id) by {
        if Contains(es, id) {
          var e :| e in es && e.id == id;
          assert e != es[0];
          assert e in es[1..];
        }
        if Contains(es[1..], id) {
          var e :| e in es[1..] && e.id == id;
          assert e in es;
        }
      }
      assert [es[0]] + Without(es[1..], id) == Without(es, id);
      TotalAppend([es[0]], Without(es[1..], id));
    }
  }

  lemma {:induction false} WithoutDistinct(es: seq<Entry>, id: string)
    requires DistinctIds(es)
    ensures DistinctIds(Without(es, id))
    decreases |es|
  {
    if es != [] {
      WithoutDistinct(es[1..], id);
      if es[0].id != id {
        var r := Without(es, id);
        assert r == [es[0]] + Without(es[1..], id);
        forall i, j | 0 <= i < j < |r| ensures r[i].id != r[j].id {
          if i == 0 {
            assert r[j] in Without(es[1..], id);
            assert r[j] in es[1..];
            var m :| 0 <= m < |es[1..]| && es[1..][m] == r[j];
            assert es[m + 1] == r[j];
          }
        }
      }
    }
  }

  /** Appending a fresh id to a map without it keeps ids distinct. */
  lemma AppendDistinct(es: seq<Entry>, id: string, b: Option<Bitmap>)
    requires DistinctIds(es)
    ensures DistinctIds(Without(es, id) + [Entry(id, b)])
  {
    WithoutDistinct(es, id);
    var w := Without(es, id);
    var r := w + [Entry(id, b)];
    forall i, j | 0 <= i < j < |r| ensures r[i].id != r[j].id {
      if j == |r| - 1 {
        assert r[i] == w[i];
        assert w[i] in w;
      }
    }
  }

  lemma SuffixDistinct(es: seq<Entry>, k: nat)
    requires DistinctIds(es) && k <= |es|
    ensures DistinctIds(es[k..])
  {
    forall i, j | 0 <= i < j < |es[k..]| ensures es[k..][i].id != es[k..][j].id {
      assert es[k..][i] == es[k + i] && es[k..][j] == es[k + j];
    }
  }

  // ---------------------------------------------------------------------
  // Properties of the cache
  // ---------------------------------------------------------------------

  /**
   * The eviction loop, characterised: the counter drops by exactly the sizes
   * of the k evicted (oldest) entries; it ends at or under the limit unless it
   * emptied the map; and every shorter prefix would have left it over.
   */
  lemma {:induction false} EvictCountSpec(es: seq<Entry>, size: int, limit: int)
    requires size > limit
    ensures var k := EvictCount(es, size, limit);
      && (size - Total(es[..k]) <= limit || k == |es|)
      && forall j :: 1 <= j < k ==> size - Total(es[..j]) > limit
    decreases |es|
  {
    if es != [] {
      var s1 := size - SizeInBytes(es[0].bitmap);
      assert es[..1] == [es[0]];
      if s1 > limit {
        EvictCountSpec(es[1..], s1, limit);
        var k := EvictCount(es, size, limit);
        assert k == 1 + EvictCount(es[1..], s1, limit);
        forall j | 1 <= j <= k ensures Total(es[..j]) == SizeInBytes(es[0].bitmap) + Total(es[1..][..j - 1]) {
          assert es[..j] == [es[0]] + es[1..][..j - 1];
          TotalAppend([es[0]], es[1..][..j - 1]);
        }
      }
    }
  }

  /** After checkSize the counter fits under the limit or the map is empty; nothing goes when it already fits. */
  lemma CheckSizeFits(c: Cache)
    ensures CheckSizeF(c).size <= c.limit || CheckSizeF(c).entries == []
    ensures c.size <= c.limit ==> CheckSizeF(c) == c
    ensures CheckSizeF(c).limit == c.limit
  {
    if c.size > c.limit {
      EvictCountSpec(c.entries, c.size, c.limit);
    }
  }

  /** `c1` is `c` with its `k` oldest entries evicted, and no shorter prefix would have brought `c` under its limit. */
  predicate EvictedPrefix(c: Cache, c1: Cache, k: nat)
    requires k <= |c.entries|
  {
    && c1.entries == c.entries[k..]
    && c1.size == c.size - Total(c.entries[..k])
    && forall j :: 1 <= j < k ==> c.size - Total(c.entries[..j]) > c.limit
  }

  /**
   * Evicted entries are the oldest ones: what remains is a suffix of the
   * access order, the counter drops by exactly the evicted sizes, and the
   * loop stops at the first prefix that brings the counter under the limit.
   */
  lemma EvictsOldestFirst(c: Cache)
    ensures exists k :: 0 <= k <= |c.entries| && EvictedPrefix(c, CheckSizeF(c), k)
  {
    if c.size > c.limit {
      EvictCountSpec(c.entries, c.size, c.limit);
      var k := EvictCount(c.entries, c.size, c.limit);
      assert EvictedPrefix(c, CheckSizeF(c), k);
    } else {
      assert c.entries[0..] == c.entries && c.entries[..0] == [];
      assert EvictedPrefix(c, CheckSizeF(c), 0);
    }
  }

  /** Eviction keeps the counter in step with the entries and the ids distinct. */
  lemma CheckSizeAccounted(c: Cache)
    requires Accounted(c) && DistinctIds(c.entries)
    ensures Accounted(CheckSizeF(c)) && DistinctIds(CheckSizeF(c).entries)
  {
    if c.size > c.limit {
      var k := EvictCount(c.entries, c.size, c.limit);
      assert c.entries == c.entries[..k] + c.entries[k..];
      TotalAppend(c.entries[..k], c.entries[k..]);
      SuffixDistinct(c.entries, k);
    }
  }

  /**
   * put subtracts the replaced entry's size before adding the new one, so
   * across put and clear calls the counter stays equal to the sum of the
   * stored sizes.
   */
  lemma PutAccounted(c: Cache, id: string, b: Option<Bitmap>)
    requires Accounted(c) && DistinctIds(c.entries)
    ensures Accounted(PutF(c, id, b)) && DistinctIds(PutF(c, id, b).entries)
  {
    var s := Staged(c, id, b);
    TotalWithout(c.entries, id);
    TotalAppend(Without(c.entries, id), [Entry(id, b)]);
    assert Total([Entry(id, b)]) == SizeInBytes(b);
    AppendDistinct(c.entries, id, b);
    assert Accounted(s) && DistinctIds(s.entries);
    CheckSizeAccounted(s);
  }

  lemma ClearAccounted(c: Cache)
    ensures Accounted(ClearF(c)) && ClearF(c).entries == [] && ClearF(c).size == 0
  {
  }

  /**
   * The entry just put is the newest one, so it is evicted only after every
   * older entry: if anything survives the put, the new entry does.
   */
  lemma PutNewestSurvives(c: Cache, id: string, b: Option<Bitmap>)
    ensures var es := PutF(c, id, b).entries; es == [] || es[|es| - 1] == Entry(id, b)
  {
    EvictsOldestFirst(Staged(c, id, b));
  }

  /** A get right after a put returns the bitmap just put, as long as the cache still holds anything. */
  lemma GetAfterPut(c: Cache, id: string, b: Option<Bitmap>)
    requires DistinctIds(c.entries)
    requires PutF(c, id, b).entries != []
    ensures GetF(PutF(c, id, b), id).1 == b
  {
    var s := Staged(c, id, b);
    var c1 := CheckSizeF(s);
    PutNewestSurvives(c, id, b);
    EvictsOldestFirst(s);
    var k :| 0 <= k <= |s.entries| && EvictedPrefix(s, c1, k);
    AppendDistinct(c.entries, id, b);
    SuffixDistinct(s.entries, k);
    var es := c1.entries;
    assert DistinctIds(es);
    var n := |es| - 1;
    assert es[n] == Entry(id, b);
    LookupFound(es, n);
    assert es[n] in es;
    assert Contains(es, id);
  }

  lemma {:induction false} WithoutSplit(es: seq<Entry>, i: nat)
    requires DistinctIds(es) && i < |es|
    ensures Without(es, es[i].id) == es[..i] + es[i + 1..]
    decreases i
  {
    var id := es[i].id;
    if i == 0 {
      assert !Contains(es[1..], id) by {
        forall x | x in es[1..] ensures x.id != id {
          var m :| 0 <= m < |es[1..]| && es[1..][m] == x;
          assert es[1 + m] == x;
        }
      }
      WithoutAbsent(es[1..], id);
    } else {
      assert es[1..][i - 1] == es[i];
      WithoutSplit(es[1..], i - 1);
      assert es[0].id != id;
      assert [es[0]] + es[1..][..i - 1] + es[1..][i..] == es[..i] + es[i + 1..];
    }
  }

  /** Replacing the entry for `id` and dropping `id` again gives the same as dropping it once. */
  lemma WithoutTouched(es: seq<Entry>, id: string, x: Option<Bitmap>)
    ensures Without(Without(es, id) + [Entry(id, x)], id) == Without(es, id)
  {
    WithoutAppend(Without(es, id), [Entry(id, x)], id);
    WithoutAbsent(Without(es, id), id);
    assert Without([Entry(id, x)], id) == [];
  }

  /**
   * get returns nothing and changes nothing for an absent id; for a present
   * id it returns the stored bitmap and makes that entry the most recently
   * used, keeping every entry and the counter.
   */
  lemma GetSpec(c: Cache, id: string)
    requires DistinctIds(c.entries)
    ensures !Contains(c.entries, id) ==> GetF(c, id) == (c, None)
    ensures forall i :: 0 <= i < |c.entries| && c.entries[i].id == id ==>
      && GetF(c, id).1 == c.entries[i].bitmap
      && GetF(c, id).0.entries == c.entries[..i] + c.entries[i + 1..] + [c.entries[i]]
      && multiset(GetF(c, id).0.entries) == multiset(c.entries)
      && GetF(c, id).0.size == c.size && GetF(c, id).0.limit == c.limit
  {
    forall i | 0 <= i < |c.entries| && c.entries[i].id == id
      ensures GetF(c, id).1 == c.entries[i].bitmap
      ensures GetF(c, id).0.entries == c.entries[..i] + c.entries[i + 1..] + [c.entries[i]]
      ensures multiset(GetF(c, id).0.entries) == multiset(c.entries)
    {
      var es := c.entries;
      assert es[i] in es;
      LookupFound(es, i);
      WithoutSplit(es, i);
      assert es == es[..i] + [es[i]] + es[i + 1..];
    }
  }

  /** remove deletes the entry but leaves the counter where it was. */
  lemma RemoveKeepsCounter(c: Cache, id: string)
    requires DistinctIds(c.entries)
    ensures RemoveF(c, id).size == c.size
    ensures !Contains(RemoveF(c, id).entries, id)
    ensures Total(RemoveF(c, id).entries) == Total(c.entries) - (if Contains(c.entries, id) then SizeInBytes(Lookup(c.entries, id)) else 0)
  {
    TotalWithout(c.entries, id);
  }

  /** After a remove the counter can exceed the sum of the remaining entries. */
  lemma RemoveOvercounts()
    ensures var c := Cache([Entry("a", Some(Bitmap(4, 10)))], 40, 100);
      Accounted(c) && !Accounted(RemoveF(c, "a")) && RemoveF(c, "a").size > Total(RemoveF(c, "a").entries)
  {
    var c := Cache([Entry("a", Some(Bitmap(4, 10)))], 40, 100);
    assert Total(c.entries) == 40;
    assert RemoveF(c, "a").entries == [];
  }

  // ---------------------------------------------------------------------
  // The cache object
  // ---------------------------------------------------------------------

  class MemoryCache {
    var entries: seq<Entry>
    var size: int
    var limit: int

    function State(): Cache
      reads this
    {
      Cache(entries, size, limit)
    }

    ghost predicate Valid()
      reads this
    {
      DistinctIds(entries)
    }

    /** The limit is a quarter of the maximum heap size, given here as a parameter. */
    constructor (maxMemory: int)
      ensures Valid() && Accounted(State())
      ensures entries == [] && size == 0 && limit == JDiv(maxMemory, 4)
    {
      entries := [];
      size := 0;
      limit := JDiv(maxMemory, 4);
    }

    method Get(id: string) returns (b: Option<Bitmap>)
      requires Valid()
      modifies this
      ensures Valid()
      ensures (State(), b) == GetF(old(State()), id)
    {
      if !Contains(entries, id) {
        return None;
      }
      b := Lookup(entries, id);
      entries := Without(entries, id) + [Entry(id, b)];
      AppendDistinct(old(entries), id, b);
    }

    method Remove(id: string)
      requires Valid()
      modifies this
      ensures Valid()
      ensures State() == RemoveF(old(State()), id)
    {
      if Contains(entries, id) {
        entries := Without(entries, id);
        WithoutDistinct(old(entries), id);
      }
      else {
        WithoutAbsent(entries, id);
      }
    }

    /** Stores a bitmap, accounts for its size, evicts as needed, and hands the bitmap back. */
    method Put(id: string, bitmap: Option<Bitmap>) returns (r: Option<Bitmap>)
      requires Valid()
      modifies this
      ensures Valid()
      ensures r == bitmap
      ensures State() == PutF(old(State()), id, bitmap)
      ensures old(Accounted(State())) ==> Accounted(State())
    {
      ghost var c0 := State();
      if Contains(entries, id) {
        var previous := Lookup(entries, id);
        // the lookup marks the entry as most recently used
        entries := Without(entries, id) + [Entry(id, previous)];
        size := size - SizeInBytes(previous);
        WithoutTouched(c0.entries, id, previous);
      } else {
        WithoutAbsent(entries, id);
      }
      assert Without(entries, id) == Without(c0.entries, id);
      entries := Without(entries, id) + [Entry(id, bitmap)];
      size := size + SizeInBytes(bitmap);
      assert State() == Staged(c0, id, bitmap);
      AppendDistinct(c0.entries, id, bitmap);
      CheckSize();
      r := bitmap;
      if Accounted(c0) {
        PutAccounted(c0, id, bitmap);
      }
    }

    /** The eviction loop: walks the entries oldest first, removing each until the counter fits. */
    method CheckSize()
      requires Valid()
      modifies this
      ensures Valid()
      ensures State() == CheckSizeF(old(State()))
    {
      if size > limit {
        ghost var es0, size0 := entries, size;
        ghost var j: nat := 0;
        while entries != []
          invariant Valid() && limit == old(limit)
          invariant j <= |es0| && entries == es0[j..]
          invariant size == size0 - Total(es0[..j])
          invariant size > limit
          invariant j + EvictCount(entries, size, limit) == EvictCount(es0, size0, limit)
          decreases |entries|
        {
          var e := entries[0];
          TotalPrefixStep(es0, j);
          assert es0[j] == e;
          size := size - SizeInBytes(e.bitmap);
          entries := entries[1..];
          j := j + 1;
          assert entries == es0[j..];
          if size <= limit {
            break;
          }
        }
        SuffixDistinct(es0, j);
      }
    }

    method Clear()
      modifies this
      ensures State() == ClearF(old(State()))
      ensures Valid() && Accounted(State())
    {
      entries := [];
      size := 0;
    }

    method GetSize() returns (n: int)
      ensures n == size
    {
      n := size;
    }
  }
}
