/** `dictionary.Bank`: the façade that owns the primary index (`WordBank`),
    the tag index (`TagBank`) and the synonym index, and updates the primary
    index first and the derived ones after it. */
module Banks {
  import opened Results
  import opened Order
  import opened Words
  import opened TagBanks
  import opened WordBanks

  /** The tag index mirrors the tags of the entries: a word sits in a tag's
      bucket exactly when the word is filed and carries that tag. */
  ghost predicate Coherent(tags: map<string, set<string>>, b: Buckets) {
    && (forall w, t :: w in tags && t in tags[w] ==> t in b && w in b[t])
    && (forall t, w :: t in b && w in b[t] ==> w in tags && t in tags[w])
  }

  /** Filing a new word with its tags and joining their buckets keeps the
      indexes coherent. */
  lemma CoherentAddWord(tags: map<string, set<string>>, b: Buckets, w: string, ts: set<string>)
    requires Coherent(tags, b) && w !in tags
    ensures Coherent(tags[w := ts], WithWord(b, w, ts))
  {
    var tags', b' := tags[w := ts], WithWord(b, w, ts);
    forall t, v | t in b' && v in b'[t] ensures v in tags' && t in tags'[v] {
      if v != w {
        assert t in b && v in b[t];
      }
    }
  }

  /** Removing a filed word and leaving the buckets of its tags keeps the
      indexes coherent. */
  lemma CoherentDeleteWord(tags: map<string, set<string>>, b: Buckets, w: string)
    requires Coherent(tags, b) && w in tags
    ensures Coherent(tags - {w}, WithoutWord(b, w, tags[w]))
  {
    var tags', b' := tags - {w}, WithoutWord(b, w, tags[w]);
    forall t, v | t in b' && v in b'[t] ensures v in tags' && t in tags'[v] {
      assert v in b[t];
    }
  }

  /** Adding tags to a filed word and joining their buckets keeps the indexes
      coherent. */
  lemma CoherentAddTags(tags: map<string, set<string>>, b: Buckets, w: string, ts: set<string>)
    requires Coherent(tags, b) && w in tags
    ensures Coherent(tags[w := tags[w] + ts], WithWord(b, w, ts))
  {
    var tags', b' := tags[w := tags[w] + ts], WithWord(b, w, ts);
    forall t, v | t in b' && v in b'[t] ensures v in tags' && t in tags'[v] {
      if !(v == w && t in ts) {
        assert t in b && v in b[t];
      }
    }
  }

  /** Deleting tags from a filed word and leaving the buckets of the tags it
      actually lost keeps the indexes coherent. */
  lemma CoherentDeleteTags(tags: map<string, set<string>>, b: Buckets, w: string, ts: set<string>)
    requires Coherent(tags, b) && w in tags
    ensures Coherent(tags[w := tags[w] - ts], WithoutWord(b, w, tags[w] * ts))
  {
    var tags', b' := tags[w := tags[w] - ts], WithoutWord(b, w, tags[w] * ts);
    forall w', t | w' in tags' && t in tags'[w'] ensures t in b' && w' in b'[t] {
      assert t in tags[w'];
    }
    forall t, v | t in b' && v in b'[t] ensures v in tags' && t in tags'[v] {
      assert v in b[t];
    }
  }

  class Bank {
    const wordBank: WordBank
    const tagBank: TagBank
    /** The synonym index, word to the synonyms registered for it. */
    var synonymBank: map<string, set<string>>

    ghost predicate Valid()
      reads this, wordBank, tagBank, wordBank.entries.Values
    {
      wordBank.Valid() && Coherent(wordBank.Tags(), tagBank.buckets)
    }

    /** An empty bank. */
    constructor ()
      ensures Valid() && fresh(wordBank) && fresh(tagBank)
      ensures wordBank.entries == map[] && tagBank.buckets == map[] && synonymBank == map[]
    {
      wordBank := new WordBank();
      tagBank := new TagBank();
      synonymBank := map[];
    }

    /** Files a new word and joins the buckets of its tags; a word already
        filed is refused before the tag index is touched. */
    method AddWord(word: Word) returns (r: Outcome)
      requires Valid()
      modifies wordBank, tagBank
      ensures Valid()
      ensures word.word in old(wordBank.entries) ==>
        && r == Fail(WordAlreadyExists(word.word))
        && wordBank.entries == old(wordBank.entries) && tagBank.buckets == old(tagBank.buckets)
      ensures word.word !in old(wordBank.entries) ==>
        && r == Pass
        && wordBank.entries == old(wordBank.entries)[word.word := word]
        && tagBank.buckets == WithWord(old(tagBank.buckets), word.word, word.tags)
    {
      ghost var tags0 := wordBank.Tags();
      r := wordBank.AddWord(word);
      if r.Fail? {
        return;
      }
      tagBank.AddWordToAllTags(word);
      assert wordBank.Tags() == tags0[word.word := word.tags];
      CoherentAddWord(tags0, old(tagBank.buckets), word.word, word.tags);
    }

    /** Removes a word from the primary index and from the bucket of each of
        its tags; a word not filed is refused with nothing changed. The tag
        index is updated from the tags of the object passed in, so that object
        must be the one filed under its word. */
    method DeleteWordFromBank(word: Word) returns (r: Outcome)
      requires Valid()
      requires word.word in wordBank.entries ==> wordBank.entries[word.word] == word
      modifies wordBank, tagBank
      ensures Valid()
      ensures word.word !in old(wordBank.entries) ==>
        && r == Fail(NoWordFound(word.word))
        && wordBank.entries == old(wordBank.entries) && tagBank.buckets == old(tagBank.buckets)
      ensures word.word in old(wordBank.entries) ==>
        && r == Pass
        && wordBank.entries == old(wordBank.entries) - {word.word}
        && tagBank.buckets == WithoutWord(old(tagBank.buckets), word.word, word.tags)
    {
      ghost var tags0 := wordBank.Tags();
      r := wordBank.DeleteWord(word);
      if r.Fail? {
        return;
      }
      assert word.tags == tags0[word.word];
      assert forall t :: t in word.tags ==> t in tagBank.buckets;
      tagBank.DeleteWordAllTags(word);
      assert wordBank.Tags() == tags0 - {word.word};
      CoherentDeleteWord(tags0, old(tagBank.buckets), word.word);
    }

    /** Adds the listed tags to a filed word and joins their buckets,
        returning the word's whole tag set; a word not filed is refused before
        the tag index is touched. */
    method AddWordToSomeTags(wordDescription: string, tags: seq<string>) returns (r: Result<set<string>>)
      requires Valid()
      modifies tagBank, if wordDescription in wordBank.entries then {wordBank.entries[wordDescription]} else {}
      ensures Valid() && wordBank.entries == old(wordBank.entries)
      ensures wordDescription !in wordBank.entries ==>
        && r == Err(NoWordFound(wordDescription))
        && wordBank.Tags() == old(wordBank.Tags()) && tagBank.buckets == old(tagBank.buckets)
      ensures wordDescription in wordBank.entries ==>
        && r == Ok(old(wordBank.Tags())[wordDescription] + Elems(tags))
        && wordBank.Tags() == old(wordBank.Tags())[wordDescription := r.value]
        && tagBank.buckets == WithWord(old(tagBank.buckets), wordDescription, Elems(tags))
      ensures wordBank.Meanings() == old(wordBank.Meanings()) && wordBank.Synonyms() == old(wordBank.Synonyms())
    {
      r := wordBank.AddWordToSomeTags(wordDescription, tags);
      if r.Err? {
        return;
      }
      tagBank.AddWordToSomeTags(wordDescription, tags);
      CoherentAddTags(old(wordBank.Tags()), old(tagBank.buckets), wordDescription, Elems(tags));
    }

    /** Deletes the requested tags from a filed word (the source dereferences
        it) and leaves the buckets of exactly the tags it deleted; requested
        tags the word lacks change nothing. */
    method DeleteTags(deletedWord: string, tags: seq<string>) returns (deletedTags: seq<string>, nullTags: seq<string>)
      requires Valid() && deletedWord in wordBank.entries
      modifies tagBank, wordBank.entries[deletedWord]
      ensures Valid() && wordBank.entries == old(wordBank.entries)
      ensures var split := SortTags(old(wordBank.Tags())[deletedWord], tags);
        && deletedTags == split.deleted && nullTags == split.nonExist
        && wordBank.Tags() == old(wordBank.Tags())[deletedWord := split.remaining]
        && tagBank.buckets == WithoutWord(old(tagBank.buckets), deletedWord, Elems(deletedTags))
      ensures wordBank.Meanings() == old(wordBank.Meanings()) && wordBank.Synonyms() == old(wordBank.Synonyms())
    {
      ghost var tags0 := wordBank.Tags();
      deletedTags, nullTags := wordBank.DeleteTags(deletedWord, tags);
      assert Elems(deletedTags) == tags0[deletedWord] * Elems(tags);
      forall t | t in deletedTags ensures t in tagBank.buckets {
        assert t in Elems(deletedTags);
      }
      tagBank.DeleteWordSomeTags(deletedTags, deletedWord);
      CoherentDeleteTags(tags0, old(tagBank.buckets), deletedWord, Elems(tags));
    }

    /** Adds one tag to a filed word (the source dereferences it) and joins
        that tag's bucket. */
    method AddTagToWord(word: string, tag: string)
      requires Valid() && word in wordBank.entries
      modifies tagBank, wordBank.entries[word]
      ensures Valid() && wordBank.entries == old(wordBank.entries)
      ensures wordBank.Tags() == old(wordBank.Tags())[word := old(wordBank.Tags())[word] + {tag}]
      ensures tagBank.buckets == WithWord(old(tagBank.buckets), word, {tag})
      ensures wordBank.Meanings() == old(wordBank.Meanings()) && wordBank.Synonyms() == old(wordBank.Synonyms())
    {
      wordBank.AddTagToWord(word, tag);
      tagBank.AddWordToOneTag(word, tag);
      CoherentAddTags(old(wordBank.Tags()), old(tagBank.buckets), word, {tag});
    }

    /** The words of a tag, each once; a tag that never had a bucket is
        reported, while a bucket emptied by deletions yields no words. */
    method GetWordsOfTag(searchTag: string) returns (r: Result<seq<string>>)
      requires Valid()
      ensures r.Err? <==> searchTag !in tagBank.buckets
      ensures r.Err? ==> r.error == NoTagFound(searchTag)
      ensures r.Ok? ==> NoDuplicates(r.value) && forall w :: w in r.value <==> w in tagBank.buckets[searchTag]
      ensures r.Ok? ==> forall w :: w in r.value ==> w in wordBank.entries && searchTag in wordBank.entries[w].tags
    {
      if searchTag !in tagBank.buckets {
        return Err(NoTagFound(searchTag));
      }
      var words := tagBank.GetAllWordsOfTag(searchTag);
      forall w | w in words ensures w in wordBank.entries && searchTag in wordBank.entries[w].tags {
        assert w in wordBank.Tags() && searchTag in wordBank.Tags()[w];
      }
      r := Ok(words);
    }

    /** Registers the listed synonyms for a filed word and returns all of the
        word's synonyms; a word not filed is refused before the synonym index
        is touched. The body joins them in one direction only. */
    method AddWordToSomeSynonyms(wordDescription: string, synonyms: seq<string>) returns (r: Result<set<string>>)
      requires Valid()
      modifies this
      ensures Valid()
      ensures wordDescription !in wordBank.entries ==>
        r == Err(NoWordFound(wordDescription)) && synonymBank == old(synonymBank)
      ensures wordDescription in wordBank.entries ==>
        && r.Ok? && Elems(synonyms) <= r.value
        && wordDescription in synonymBank && synonymBank[wordDescription] == r.value
    {
      if wordDescription !in wordBank.entries {
        return Err(NoWordFound(wordDescription));
      }
      var known := if wordDescription in synonymBank then synonymBank[wordDescription] else {};
      synonymBank := synonymBank[wordDescription := known + Elems(synonyms)];
      r := Ok(synonymBank[wordDescription]);
    }

    /** The synonyms registered for a word; a word without any registration
        is reported, whether or not it is filed. */
    function GetSynonymsOfWord(searchWord: string): (r: Result<set<string>>)
      reads this
      ensures r.Err? <==> searchWord !in synonymBank
      ensures r.Err? ==> r.error == NoSynonymFound(searchWord)
      ensures r.Ok? ==> r.value == synonymBank[searchWord]
    {
      if searchWord in synonymBank then Ok(synonymBank[searchWord]) else Err(NoSynonymFound(searchWord))
    }

    /** The meaning of the lower-cased query; a meaning fetched online files a
        new word without tags, which leaves the tag index coherent. */
    method SearchWordBankForMeaning(searchTerm: string, onlineResult: Option<string>) returns (r: Result<string>)
      requires Valid()
      modifies wordBank
      ensures Valid() && old(wordBank.entries).Keys <= wordBank.entries.Keys
      ensures forall k :: k in old(wordBank.entries) ==> wordBank.entries[k] == old(wordBank.entries)[k]
      ensures r.Err? ==> r.error == NoWordFound(Strings.ToLower(searchTerm)) && wordBank.entries == old(wordBank.entries)
    {
      ghost var tags0 := wordBank.Tags();
      r := wordBank.SearchWordMeaning(searchTerm, onlineResult);
      var p := Strings.ToLower(searchTerm);
      if p !in old(wordBank.entries) && onlineResult.Some? {
        assert wordBank.Tags() == tags0[p := {}];
        CoherentAddWord(tags0, tagBank.buckets, p, {});
        assert WithWord(tagBank.buckets, p, {}) == tagBank.buckets;
      } else {
        assert wordBank.Tags() == tags0;
      }
    }
  }
}
