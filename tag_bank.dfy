/** `dictionary.TagBank`: the inverted index from a tag to the words carrying
    it, a `TreeMap<String, HashSet<String>>` updated in place. */
module TagBanks {
  import opened Order
  import Words

  type Buckets = map<string, set<string>>

  /** The buckets after `w` joins the bucket of every tag in `ts`: every
      listed bucket gains `w`, a tag met for the first time gets exactly the
      bucket `{w}`, no member is lost and the other buckets stay as they were. */
  function WithWord(b: Buckets, w: string, ts: set<string>): (r: Buckets)
    ensures r.Keys == b.Keys + ts
    ensures forall t :: t in ts ==> w in r[t]
    ensures forall t :: t in ts && t !in b ==> r[t] == {w}
    ensures forall t :: t in b ==> b[t] <= r[t] && r[t] <= b[t] + {w}
    ensures forall t :: t in b && t !in ts ==> r[t] == b[t]
  {
    map t | t in b.Keys + ts :: if t !in ts then b[t] else if t in b then b[t] + {w} else {w}
  }

  /** The buckets after `w` leaves the bucket of every tag in `ts`: exactly
      those buckets lose `w` and keep every other member. No key is removed,
      even when its bucket becomes empty. */
  function WithoutWord(b: Buckets, w: string, ts: set<string>): (r: Buckets)
    ensures r.Keys == b.Keys
    ensures forall t :: t in b && t in ts ==> r[t] == b[t] - {w}
    ensures forall t :: t in b && t !in ts ==> r[t] == b[t]
  {
    map t | t in b :: if t in ts then b[t] - {w} else b[t]
  }

  /** Joining a bucket twice is joining it once, so `addWordToOneTag` (and
      every other adding operation) is idempotent. */
  lemma WithWordIdempotent(b: Buckets, w: string, ts: set<string>)
    ensures WithWord(WithWord(b, w, ts), w, ts) == WithWord(b, w, ts)
  {
    var once := WithWord(b, w, ts);
    var twice := WithWord(once, w, ts);
    assert forall t :: t in twice ==> twice[t] == once[t];
  }

  /** Joining the buckets of `ts` and then that of `t` is joining those of
      `ts + {t}`: the loops may add one tag at a time. */
  lemma WithWordStep(b: Buckets, w: string, ts: set<string>, t: string)
    ensures WithWord(WithWord(b, w, ts), w, {t}) == WithWord(b, w, ts + {t})
  {
    var step := WithWord(WithWord(b, w, ts), w, {t});
    var all := WithWord(b, w, ts + {t});
    assert forall u :: u in step ==> step[u] == all[u];
  }

  lemma WithoutWordStep(b: Buckets, w: string, ts: set<string>, t: string)
    requires t in b
    ensures var before := WithoutWord(b, w, ts);
            before[t := before[t] - {w}] == WithoutWord(b, w, ts + {t})
  {
    var before := WithoutWord(b, w, ts);
    var step := before[t := before[t] - {w}];
    var all := WithoutWord(b, w, ts + {t});
    assert forall u :: u in step ==> step[u] == all[u];
  }

  /** Joining the buckets of some tags and then leaving them again restores
      every bucket that existed before (when the word was in none of them),
      but the tags met for the first time stay behind with empty buckets: the
      index keeps every key it ever had. */
  lemma JoinThenLeave(b: Buckets, w: string, ts: set<string>)
    requires forall t :: t in b ==> w !in b[t]
    ensures var r := WithoutWord(WithWord(b, w, ts), w, ts);
      && r.Keys == b.Keys + ts
      && (forall t :: t in b ==> r[t] == b[t])
      && (forall t :: t in ts && t !in b ==> r[t] == {})
  {
    var r := WithoutWord(WithWord(b, w, ts), w, ts);
    forall t | t in b ensures r[t] == b[t] {
      if t in ts {
        assert r[t] == (b[t] + {w}) - {w};
      }
    }
  }

  class TagBank {
    var buckets: Buckets

    constructor ()
      ensures buckets == map[]
    {
      buckets := map[];
    }

    /** Adds a word to the bucket of each listed tag, creating missing ones. */
    method AddWordToSomeTags(wordDescription: string, tags: seq<string>)
      modifies this
      ensures buckets == WithWord(old(buckets), wordDescription, Elems(tags))
    {
      for i := 0 to |tags|
        invariant buckets == WithWord(old(buckets), wordDescription, Elems(tags[..i]))
      {
        WithWordStep(old(buckets), wordDescription, Elems(tags[..i]), tags[i]);
        AddWordToOneTag(wordDescription, tags[i]);
        assert Elems(tags[..i + 1]) == Elems(tags[..i]) + {tags[i]} by {
          assert tags[..i + 1] == tags[..i] + [tags[i]];
        }
      }
      assert tags[..|tags|] == tags;
    }

    /** Removes a word from the bucket of each of its tags; every such tag
        must already be a key (the source dereferences its bucket). */
    method DeleteWordAllTags(word: Words.Word)
      requires word.tags <= buckets.Keys
      modifies this
      ensures buckets == WithoutWord(old(buckets), word.word, word.tags)
    {
      var rest := word.tags;
      while rest != {}
        invariant rest <= word.tags
        invariant buckets == WithoutWord(old(buckets), word.word, word.tags - rest)
        decreases rest
      {
        var tag :| tag in rest;
        buckets := buckets[tag := buckets[tag] - {word.word}];
        rest := rest - {tag};
      }
    }

    /** Removes a word from the bucket of each listed tag; every listed tag
        must be a key. */
    method DeleteWordSomeTags(deletedTags: seq<string>, deletedWord: string)
      requires forall t :: t in deletedTags ==> t in buckets
      modifies this
      ensures buckets == WithoutWord(old(buckets), deletedWord, Elems(deletedTags))
    {
      for i := 0 to |deletedTags|
        invariant buckets == WithoutWord(old(buckets), deletedWord, Elems(deletedTags[..i]))
      {
        var tag := deletedTags[i];
        WithoutWordStep(old(buckets), deletedWord, Elems(deletedTags[..i]), tag);
        buckets := buckets[tag := buckets[tag] - {deletedWord}];
        assert Elems(deletedTags[..i + 1]) == Elems(deletedTags[..i]) + {tag} by {
          assert deletedTags[..i + 1] == deletedTags[..i] + [tag];
        }
      }
      assert deletedTags[..|deletedTags|] == deletedTags;
    }

    /** Adds a word to the bucket of each of its own tags. */
    method AddWordToAllTags(word: Words.Word)
      modifies this
      ensures buckets == WithWord(old(buckets), word.word, word.tags)
    {
      var rest := word.tags;
      while rest != {}
        invariant rest <= word.tags
        invariant buckets == WithWord(old(buckets), word.word, word.tags - rest)
        decreases rest
      {
        var tag :| tag in rest;
        AddWordToOneTag(word.word, tag);
        rest := rest - {tag};
      }
    }

    /** Every tag once, in ascending order; by Order.EnumerationUnique
        that listing is the only one, so it depends on the tag set alone. */
    method GetAllTagsAsList() returns (r: seq<string>)
      ensures Enumerates(r, buckets.Keys)
    {
      r := SortedKeys(buckets.Keys);
    }

    /** The members of a tag's bucket, each once (in the bucket's own
        unspecified order); the tag must be a key. */
    method GetAllWordsOfTag(tag: string) returns (r: seq<string>)
      requires tag in buckets
      ensures forall w :: w in r <==> w in buckets[tag]
      ensures NoDuplicates(r)
    {
      var allWords := buckets[tag];
      r := [];
      var rest := allWords;
      while rest != {}
        invariant rest <= allWords
        invariant forall w :: w in r <==> w in allWords - rest
        invariant NoDuplicates(r)
        decreases rest
      {
        var w :| w in rest;
        assert w !in r;
        r := r + [w];
        rest := rest - {w};
      }
    }

    /** Adds a word to one tag's bucket, creating it if missing. */
    method AddWordToOneTag(word: string, tag: string)
      modifies this
      ensures buckets == WithWord(old(buckets), word, {tag})
    {
      if tag in buckets {
        buckets := buckets[tag := buckets[tag] + {word}];
      } else {
        buckets := buckets[tag := {word}];
      }
    }
  }
}
