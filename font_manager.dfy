/** The font registry: the sorted, duplicate-free list of family names known to the font
    engine, computed once per process. The engine's face database is not modelled: the query
    result is an input, `None` when acquiring the engine's write lock fails, otherwise one list
    of family names per loaded face. */
module FontManager {
  import opened Optional
  import opened SeqOps
  import opened Text

  /** The family names of one font face, the primary one first. */
  type Face = seq<string>

  /** `n` is the primary family name of one of `faces`. */
  ghost predicate IsPrimaryFamily(faces: seq<Face>, n: string) {
    exists k :: 0 <= k < |faces| && |faces[k]| > 0 && faces[k][0] == n
  }

  /** `faces.filter_map(|f| f.families.first())`, in face order. */
  ghost function PrimaryFamilies(faces: seq<Face>): (names: seq<string>)
    ensures forall n :: n in names <==> IsPrimaryFamily(faces, n)
  {
    if |faces| == 0 then []
    else
      var init := faces[..|faces| - 1];
      var last := faces[|faces| - 1];
      assert forall k :: 0 <= k < |init| ==> init[k] == faces[k];
      PrimaryFamilies(init) + (if |last| > 0 then [last[0]] else [])
  }

  /** `font_list`: collect the primary family names, then sort and deduplicate. */
  method FontList(query: Option<seq<Face>>) returns (list: seq<string>)
    ensures StrictlySorted(LexLe, list)
    ensures forall n :: n in list <==> query.Some? && IsPrimaryFamily(query.value, n)
    ensures query.None? ==> list == []
  {
    list := [];
    if query.Some? {
      var faces := query.value;
      for k := 0 to |faces|
        invariant list == PrimaryFamilies(faces[..k])
      {
        assert faces[..k + 1][..k] == faces[..k];
        if |faces[k]| > 0 {
          list := list + [faces[k][0]];
        }
      }
      assert faces[..|faces|] == faces;
    }
    var sorted := Sort(LexLe, list);
    LexLeIsTotalOrder();
    SortSorted(LexLe, list);
    assert forall n :: n in sorted <==> n in list by {
      forall n ensures n in sorted <==> n in list {
        assert n in sorted <==> n in multiset(sorted);
        assert n in list <==> n in multiset(list);
      }
    }
    DedupStrictlySorted(LexLe, sorted);
    list := Dedup(sorted);
  }

  /** The process-wide cell behind `get_global_font_list` (a `OnceLock`). */
  class FontRegistry {
    var cache: Option<seq<string>>

    ghost predicate Valid()
      reads this
    {
      cache.Some? ==> StrictlySorted(LexLe, cache.value)
    }

    constructor ()
      ensures Valid() && cache == None
    {
      cache := None;
    }

    /** `get_global_font_list`: the first call computes the list from `query` and keeps it;
        every later call returns the kept list and ignores `query`. */
    method GetGlobalFontList(query: Option<seq<Face>>) returns (list: seq<string>)
      requires Valid()
      modifies this
      ensures Valid() && cache == Some(list)
      ensures old(cache).Some? ==> list == old(cache).value
      ensures old(cache).None? ==>
        forall n :: n in list <==> query.Some? && IsPrimaryFamily(query.value, n)
    {
      if cache.None? {
        var computed := FontList(query);
        cache := Some(computed);
      }
      list := cache.value;
    }
  }

  /** Two calls on one registry, the font engine possibly answering differently in between,
      return the same list: the one computed by the first call. */
  method CachedListIsStable(first: Option<seq<Face>>, second: Option<seq<Face>>)
    returns (a: seq<string>, b: seq<string>)
    ensures a == b
    ensures StrictlySorted(LexLe, a)
    ensures forall n :: n in a <==> first.Some? && IsPrimaryFamily(first.value, n)
  {
    var registry := new FontRegistry();
    a := registry.GetGlobalFontList(first);
    b := registry.GetGlobalFontList(second);
  }
}
