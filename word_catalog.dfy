/**
 * The process-wide word -> uint32 ID table of services/faq_service.go
 * (wordIDMap, wordIDCounter) and the ID sets ("bitmaps") built from it.
 */
module WordIds {
  import opened Text

  /** The IDs are uint32: the counter wraps at 2^32. */
  const IdSpace: nat := 0x1_0000_0000

  /** No two words share an ID. */
  ghost predicate Injective(ids: map<string, nat>)
  {
    forall a, b :: a in ids && b in ids && a != b ==> ids[a] != ids[b]
  }

  /** `later` keeps every entry of `earlier`. */
  ghost predicate Extends(later: map<string, nat>, earlier: map<string, nat>)
  {
    forall w :: w in earlier ==> w in later && later[w] == earlier[w]
  }

  /**
   * The counter is the number of words mod 2^32; every ID is a uint32;
   * until the counter has wrapped, IDs are distinct and below the counter.
   */
  ghost predicate Numbered(ids: map<string, nat>, counter: nat)
  {
    && counter == |ids| % IdSpace
    && (forall w :: w in ids ==> ids[w] < IdSpace)
    && (|ids| < IdSpace ==> Injective(ids) && forall w :: w in ids ==> ids[w] < counter)
  }

  /** Giving a new word the counter's value and advancing the counter keeps the table numbered. */
  lemma NumberedInsert(ids: map<string, nat>, counter: nat, word: string)
    requires Numbered(ids, counter) && word !in ids
    ensures Numbered(ids[word := counter], (counter + 1) % IdSpace)
  {
    var next := ids[word := counter];
    assert |next| == |ids| + 1;
  }

  /** The set of IDs of those words that have one. */
  function IdSet(ids: map<string, nat>, words: seq<string>): set<nat>
  {
    set w | w in words && w in ids :: ids[w]
  }

  /** The image of a set of words under the table. */
  ghost function Image(ids: map<string, nat>, ws: set<string>): set<nat>
  {
    set w | w in ws && w in ids :: ids[w]
  }

  /** A table that is injective on ws maps ws to exactly |ws| IDs. */
  lemma {:induction false} ImageSize(ids: map<string, nat>, ws: set<string>)
    requires ws <= ids.Keys
    requires Injective(ids)
    ensures |Image(ids, ws)| == |ws|
    decreases |ws|
  {
    if ws != {} {
      var w :| w in ws;
      var rest := ws - {w};
      ImageSize(ids, rest);
      assert Image(ids, ws) == Image(ids, rest) + {ids[w]};
      assert ids[w] !in Image(ids, rest);
    }
  }

  /** An injective table maps the common words of two sets to the common IDs. */
  lemma ImageIntersection(ids: map<string, nat>, a: set<string>, b: set<string>)
    requires a <= ids.Keys && b <= ids.Keys
    requires Injective(ids)
    ensures Image(ids, a) * Image(ids, b) == Image(ids, a * b)
  {
    forall x | x in Image(ids, a) * Image(ids, b)
      ensures x in Image(ids, a * b)
    {
      var u :| u in a && ids[u] == x;
      var v :| v in b && ids[v] == x;
      assert u == v;
    }
  }

  /** An injective table that knows every word preserves sizes and intersections of word sets. */
  lemma IdSetsMirrorWordSets(ids: map<string, nat>, q: seq<string>, c: seq<string>)
    requires Injective(ids)
    requires forall w :: w in q ==> w in ids
    requires forall w :: w in c ==> w in ids
    ensures |IdSet(ids, q)| == |Elems(q)|
    ensures |IdSet(ids, c)| == |Elems(c)|
    ensures |IdSet(ids, q) * IdSet(ids, c)| == |Elems(q) * Elems(c)|
  {
    assert IdSet(ids, q) == Image(ids, Elems(q));
    assert IdSet(ids, c) == Image(ids, Elems(c));
    ImageSize(ids, Elems(q));
    ImageSize(ids, Elems(c));
    ImageIntersection(ids, Elems(q), Elems(c));
    ImageSize(ids, Elems(q) * Elems(c));
  }

  /** The ID set of a word list has at most one ID per word. */
  lemma {:induction false} IdSetSize(ids: map<string, nat>, words: seq<string>)
    ensures |IdSet(ids, words)| <= |words|
    decreases |words|
  {
    if words != [] {
      var rest := words[1..];
      IdSetSize(ids, rest);
      assert words == [words[0]] + rest;
      if words[0] in ids {
        assert IdSet(ids, words) == IdSet(ids, rest) + {ids[words[0]]};
      } else {
        assert IdSet(ids, words) == IdSet(ids, rest);
      }
    }
  }

  /** An ID set does not change when the table only gains entries for other words. */
  lemma IdSetStable(later: map<string, nat>, earlier: map<string, nat>, words: seq<string>)
    requires Extends(later, earlier)
    requires forall w :: w in words ==> w in earlier
    ensures IdSet(later, words) == IdSet(earlier, words)
  {
  }

  class WordCatalog {
    var ids: map<string, nat>
    var counter: nat

    /**
     * The counter is the number of words mod 2^32; every ID is a uint32;
     * until the counter has wrapped, IDs are distinct and below the counter.
     */
    ghost predicate Valid()
      reads this
    {
      Numbered(ids, counter)
    }

    /** The empty table of a freshly started process. */
    constructor ()
      ensures Valid() && ids == map[] && counter == 0
    {
      ids := map[];
      counter := 0;
    }

    /**
     * getWordID: a known word gets its stored ID; a new word gets the
     * counter, which then advances by one (mod 2^32); no entry changes.
     */
    method GetWordID(word: string) returns (id: nat)
      requires Valid()
      modifies this
      ensures Valid()
      ensures id < IdSpace
      ensures word in old(ids) ==> id == old(ids)[word] && ids == old(ids) && counter == old(counter)
      ensures word !in old(ids) ==>
                id == old(counter) && ids == old(ids)[word := id] && counter == (old(counter) + 1) % IdSpace
    {
      if word in ids {
        id := ids[word];
      } else {
        NumberedInsert(ids, counter, word);
        id := counter;
        ids := ids[word := id];
        counter := (counter + 1) % IdSpace;
      }
    }
  }

  /** Appending a word that has an ID adds that ID to the ID set. */
  lemma IdSetSnoc(ids: map<string, nat>, words: seq<string>, w: string)
    requires w in ids
    ensures IdSet(ids, words + [w]) == IdSet(ids, words) + {ids[w]}
  {
  }

  /** createBitmapFromWords: the set of the words' IDs, registering the new words. */
  method CreateBitmapFromWords(catalog: WordCatalog, words: seq<string>) returns (bitmap: set<nat>)
    requires catalog.Valid()
    modifies catalog
    ensures catalog.Valid()
    ensures Extends(catalog.ids, old(catalog.ids))
    ensures forall w :: w in catalog.ids <==> w in old(catalog.ids) || w in words
    ensures catalog.ids.Keys == old(catalog.ids).Keys + Elems(words)
    ensures bitmap == IdSet(catalog.ids, words)
  {
    bitmap := {};
    for i := 0 to |words|
      invariant catalog.Valid()
      invariant Extends(catalog.ids, old(catalog.ids))
      invariant forall w :: w in catalog.ids <==> w in old(catalog.ids) || w in words[..i]
      invariant bitmap == IdSet(catalog.ids, words[..i])
    {
      ghost var before := catalog.ids;
      var id := catalog.GetWordID(words[i]);
      IdSetStable(catalog.ids, before, words[..i]);
      IdSetSnoc(catalog.ids, words[..i], words[i]);
      bitmap := bitmap + {id};
      assert words[..i + 1] == words[..i] + [words[i]];
    }
    assert words[..|words|] == words;
    assert catalog.ids.Keys == old(catalog.ids).Keys + Elems(words);
  }
}
