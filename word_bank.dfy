/** `dictionary.WordBank`: the primary index, a `TreeMap<String, Word>` from
    each word to its entry. The entries are `Word` objects, changed in place
    by the tag, synonym and meaning operations. */
module WordBanks {
  import opened Results
  import opened Strings
  import opened Order
  import opened Words

  /** How `deleteTags` sorts a request: the tags it deleted, the tags it
      reported as not present, and the word's tags afterwards. */
  datatype TagSplit = TagSplit(deleted: seq<string>, nonExist: seq<string>, remaining: set<string>)

  /** The request is taken in order: a tag the word still has is deleted,
      any other one (never there, or deleted already by an earlier copy in
      the request) is reported as not present. */
  function SortTags(tags: set<string>, request: seq<string>): (r: TagSplit)
    decreases |request|
    ensures r.remaining == tags - Elems(request)
    ensures Elems(r.deleted) == tags * Elems(request)
  {
    if request == [] then TagSplit([], [], tags)
    else
      var prev := SortTags(tags, request[..|request| - 1]);
      var tag := request[|request| - 1];
      assert Elems(request) == Elems(request[..|request| - 1]) + {tag} by {
        assert request == request[..|request| - 1] + [tag];
      }
      if tag in prev.remaining then
        assert Elems(prev.deleted + [tag]) == Elems(prev.deleted) + {tag};
        TagSplit(prev.deleted + [tag], prev.nonExist, prev.remaining - {tag})
      else
        TagSplit(prev.deleted, prev.nonExist + [tag], prev.remaining)
  }

  /** Every requested tag is reported exactly once, as deleted or as not
      present; no tag is deleted twice, and a tag reported missing was either
      never there or deleted by an earlier copy in the request. */
  lemma {:induction false} SortTagsAccounts(tags: set<string>, request: seq<string>)
    ensures var r := SortTags(tags, request);
      && NoDuplicates(r.deleted)
      && multiset(r.deleted) + multiset(r.nonExist) == multiset(request)
      && forall x :: x in r.nonExist ==> x !in tags || x in r.deleted
    decreases |request|
  {
    if request != [] {
      var front := request[..|request| - 1];
      var tag := request[|request| - 1];
      SortTagsAccounts(tags, front);
      var prev := SortTags(tags, front);
      assert request == front + [tag];
      if tag in prev.remaining {
        assert tag !in Elems(prev.deleted);
      } else {
        assert tag in tags ==> tag in Elems(prev.deleted);
      }
    }
  }

  /** The notice `searchWordMeaning` puts before a meaning fetched online. */
  function LookupNotice(word: string): string {
    "Unable to locate \"" + word + "\" in local dictionary. Looking up Oxford dictionary\n"
  }

  /** `ceilingKey` as the source calls it on the ascending key listing: the
      least key not below the prefix, or `None` where it returns `null`,
      which the source then dereferences. */
  function CeilingKeyAsWritten(keys: seq<string>, p: string): (r: Option<string>)
    requires StrictlyAscending(keys)
    ensures r.None? <==> forall j :: 0 <= j < |keys| ==> Less(keys[j], p)
    ensures r.Some? ==> r.value in keys && LessEq(p, r.value)
    ensures r.Some? ==> forall j :: 0 <= j < |keys| && LessEq(p, keys[j]) ==> LessEq(r.value, keys[j])
  {
    if keys == [] then None
    else if !Less(keys[0], p) then
      LessTotal(keys[0], p);
      assert forall j :: 0 < j < |keys| ==> Less(keys[0], keys[j]);
      Some(keys[0])
    else
      assert forall j :: 1 <= j < |keys| ==> keys[j] == keys[1..][j - 1];
      var rest := CeilingKeyAsWritten(keys[1..], p);
      LessIrreflexive(p);
      LessNotBoth(keys[0], p);
      rest
  }

  /** A bank holding `apple` and `banana` searched for words beginning with
      `cherry`: there is no ceiling key, so the source fails on `null`
      instead of reporting that no word was found. */
  lemma SearchPastLastKey()
    ensures CeilingKeyAsWritten(["apple", "banana"], "cherry") == None
  {
    assert Less("apple", "cherry") && Less("banana", "cherry");
  }

  /** The ceiling key of a sorted listing carries the prefix whenever any key
      does, and lies at or below every key that does. */
  lemma CeilingPrefix(keys: seq<string>, i: nat, p: string, k: string)
    requires StrictlyAscending(keys) && i < |keys|
    requires forall j :: 0 <= j < i ==> Less(keys[j], p)
    requires LessEq(p, keys[i])
    requires k in keys && p <= k
    ensures p <= keys[i] && LessEq(keys[i], k)
  {
    var m :| 0 <= m < |keys| && keys[m] == k;
    PrefixLessEq(p, k);
    LessNotBoth(k, p);
    assert i <= m;
    PrefixInterval(p, keys[i], k);
  }

  /** A scan from the ceiling key that stops at a key without the prefix has
      already passed every key with it. */
  lemma ScanPassedAll(keys: seq<string>, i: nat, j: nat, p: string, k: string)
    requires StrictlyAscending(keys) && i <= j < |keys|
    requires LessEq(p, keys[i]) && !(p <= keys[j])
    requires k in keys && p <= k
    ensures exists m :: 0 <= m < j && keys[m] == k
  {
    var m :| 0 <= m < |keys| && keys[m] == k;
    if j <= m {
      assert LessEq(keys[i], keys[j]);
      if Less(p, keys[i]) && Less(keys[i], keys[j]) { LessTransitive(p, keys[i], keys[j]); }
      PrefixInterval(p, keys[j], k);
      assert false;
    }
  }

  /** What the scan from the ceiling key collects: the keys with the prefix,
      except the greatest key of all, which the exclusive upper bound of
      `subMap` leaves out. */
  lemma ScanFindsAll(keys: seq<string>, K: set<string>, i: nat, j: nat, p: string, list: seq<string>)
    requires Enumerates(keys, K) && i <= j < |keys|
    requires forall k :: k in K && p <= k ==> LessEq(keys[i], k)
    requires list == keys[i..j] && forall m :: i <= m < j ==> p <= keys[m]
    requires j == |keys| - 1 || !(p <= keys[j])
    requires p <= keys[i]
    ensures StrictlyAscending(list)
    ensures forall k :: k in list <==> k in K && p <= k && exists k2 :: k2 in K && Less(k, k2)
  {
    forall k ensures k in list <==> k in K && p <= k && exists k2 :: k2 in K && Less(k, k2) {
      if k in list {
        var m :| i <= m < j && keys[m] == k;
        assert keys[|keys| - 1] in K && Less(k, keys[|keys| - 1]);
      }
      if k in K && p <= k && exists k2 :: k2 in K && Less(k, k2) {
        var k2 :| k2 in K && Less(k, k2);
        var m :| 0 <= m < |keys| && keys[m] == k;
        var m2 :| 0 <= m2 < |keys| && keys[m2] == k2;
        LessNotBoth(k, keys[i]);
        LessNotBoth(k2, k);
        assert i <= m < m2;
        if j < |keys| - 1 {
          PrefixLessEq(p, keys[i]);
          ScanPassedAll(keys, i, j, p, k);
          var m' :| 0 <= m' < j && keys[m'] == k;
          if m' < m { LessIrreflexive(k); }
        }
        assert m < j;
        assert keys[m] == list[m - i];
      }
    }
  }

  class WordBank {
    var entries: map<string, Word>

    /** Every entry is filed under its own word. */
    ghost predicate Valid()
      reads this, entries.Values
    {
      forall k :: k in entries ==> entries[k].word == k
    }

    /** The tags of every entry, by word. */
    ghost function Tags(): map<string, set<string>>
      reads this, entries.Values
    {
      map k | k in entries :: entries[k].tags
    }

    ghost function Meanings(): map<string, string>
      reads this, entries.Values
    {
      map k | k in entries :: entries[k].meaning
    }

    ghost function Synonyms(): map<string, set<string>>
      reads this, entries.Values
    {
      map k | k in entries :: entries[k].synonyms
    }

    constructor ()
      ensures Valid() && entries == map[]
    {
      entries := map[];
    }

    /** The entry filed under `word`, or none: the source reports the miss
        itself and returns `null` instead of throwing. */
    function GetWord(word: string): (r: Option<Word>)
      reads this
      ensures r.Some? <==> word in entries
      ensures r.Some? ==> r.value == entries[word]
    {
      if word in entries then Some(entries[word]) else None
    }

    /** Removes the entry filed under the given word's key, which must be
        present. */
    method DeleteWord(word: Word) returns (r: Outcome)
      requires Valid()
      modifies this
      ensures Valid()
      ensures word.word in old(entries) ==> r == Pass && entries == old(entries) - {word.word}
      ensures word.word !in old(entries) ==> r == Fail(NoWordFound(word.word)) && entries == old(entries)
    {
      if word.word in entries {
        entries := entries - {word.word};
        r := Pass;
      } else {
        r := Fail(NoWordFound(word.word));
      }
    }

    /** Files a new entry under its word; a word already present is refused
        and the bank left as it was. */
    method AddWord(word: Word) returns (r: Outcome)
      requires Valid()
      modifies this
      ensures Valid()
      ensures word.word in old(entries) ==> r == Fail(WordAlreadyExists(word.word)) && entries == old(entries)
      ensures word.word !in old(entries) ==> r == Pass && entries == old(entries)[word.word := word]
    {
      if word.word in entries {
        r := Fail(WordAlreadyExists(word.word));
        return;
      }
      entries := entries[word.word := word];
      r := Pass;
    }

    /** The meaning of the lower-cased query. On a miss the online lookup's
        result (a parameter here) is filed as a new entry without tags; a
        failed lookup is reported as no word found. */
    method SearchWordMeaning(word: string, onlineResult: Option<string>) returns (r: Result<string>)
      requires Valid()
      modifies this
      ensures Valid()
      ensures ToLower(word) in old(entries) ==>
        entries == old(entries) && r == Ok(entries[ToLower(word)].meaning)
      ensures ToLower(word) !in old(entries) && onlineResult.None? ==>
        entries == old(entries) && r == Err(NoWordFound(ToLower(word)))
      ensures ToLower(word) !in old(entries) && onlineResult.Some? ==>
        var p := ToLower(word);
        && p in entries && fresh(entries[p]) && entries == old(entries)[p := entries[p]]
        && entries[p].meaning == onlineResult.value && entries[p].tags == {} && entries[p].synonyms == {}
        && r == Ok(LookupNotice(p) + onlineResult.value)
    {
      var p := ToLower(word);
      var notice := "";
      if p !in entries {
        notice := LookupNotice(p);
        if onlineResult.None? {
          return Err(NoWordFound(p));
        }
        var temp := new Word(p, onlineResult.value);
        entries := entries[p := temp];
      }
      assert "" + entries[p].meaning == entries[p].meaning;
      r := Ok(notice + entries[p].meaning);
    }

    /** The words starting with the lower-cased prefix, ascending: a scan from
        the ceiling key up to, and not including, the last key of the bank.
        No word found is reported when the ceiling key lacks the prefix, which
        happens exactly when no key has it, and also when there is no ceiling
        key at all (see CeilingKeyAsWritten). */
    method SearchWordWithBegin(word: string) returns (r: Result<seq<string>>)
      ensures r.Err? <==> forall k :: k in entries ==> !(ToLower(word) <= k)
      ensures r.Err? ==> r.error == NoWordFound(ToLower(word))
      ensures r.Ok? ==> StrictlyAscending(r.value)
      ensures r.Ok? ==> forall k :: k in r.value <==>
        k in entries && ToLower(word) <= k && exists k2 :: k2 in entries && Less(k, k2)
    {
      var p := ToLower(word);
      var keys := SortedKeys(entries.Keys);
      // ceilingKey(p): the least key not below p
      var i := 0;
      while i < |keys| && Less(keys[i], p)
        invariant 0 <= i <= |keys|
        invariant forall j :: 0 <= j < i ==> Less(keys[j], p)
      {
        i := i + 1;
      }
      if i == |keys| {
        // no ceiling key: every key lies below the prefix
        forall k | k in entries ensures !(p <= k) {
          var m :| 0 <= m < |keys| && keys[m] == k;
          LessNotBoth(k, p);
          if p <= k { PrefixLessEq(p, k); }
        }
        return Err(NoWordFound(p));
      }
      var upperBoundWord := keys[i];
      LessTotal(upperBoundWord, p);
      forall k | k in entries && p <= k
        ensures p <= upperBoundWord && LessEq(upperBoundWord, k)
      {
        CeilingPrefix(keys, i, p, k);
      }
      if !(p <= upperBoundWord) {
        return Err(NoWordFound(p));
      }
      assert upperBoundWord in entries;
      // subMap(upperBoundWord, lastKey): the keys from index i, the last one excluded
      var arrayList := [];
      var j := i;
      while j < |keys| - 1 && p <= keys[j]
        invariant i <= j <= |keys| - 1
        invariant arrayList == keys[i..j]
        invariant forall m :: i <= m < j ==> p <= keys[m]
      {
        arrayList := arrayList + [keys[j]];
        j := j + 1;
      }
      ScanFindsAll(keys, entries.Keys, i, j, p, arrayList);
      r := Ok(arrayList);
    }

    /** Changes the meaning of one entry and nothing else. */
    method EditWordMeaning(wordToBeEdited: string, newMeaning: string) returns (r: Outcome)
      requires Valid()
      modifies if wordToBeEdited in entries then {entries[wordToBeEdited]} else {}
      ensures Valid() && entries == old(entries)
      ensures wordToBeEdited in entries ==>
        r == Pass && Meanings() == old(Meanings())[wordToBeEdited := newMeaning]
      ensures wordToBeEdited !in entries ==>
        r == Fail(NoWordFound(wordToBeEdited)) && Meanings() == old(Meanings())
      ensures Tags() == old(Tags()) && Synonyms() == old(Synonyms())
    {
      if wordToBeEdited in entries {
        entries[wordToBeEdited].EditMeaning(newMeaning);
        r := Pass;
      } else {
        r := Fail(NoWordFound(wordToBeEdited));
      }
    }

    /** Adds the listed tags to one entry and returns its whole tag set. */
    method AddWordToSomeTags(wordToBeAddedTag: string, tags: seq<string>) returns (r: Result<set<string>>)
      requires Valid()
      modifies if wordToBeAddedTag in entries then {entries[wordToBeAddedTag]} else {}
      ensures Valid() && entries == old(entries)
      ensures wordToBeAddedTag !in entries ==>
        r == Err(NoWordFound(wordToBeAddedTag)) && Tags() == old(Tags())
      ensures wordToBeAddedTag in entries ==>
        && r == Ok(old(Tags())[wordToBeAddedTag] + Elems(tags))
        && Tags() == old(Tags())[wordToBeAddedTag := r.value]
      ensures Meanings() == old(Meanings()) && Synonyms() == old(Synonyms())
    {
      if wordToBeAddedTag !in entries {
        return Err(NoWordFound(wordToBeAddedTag));
      }
      var word := entries[wordToBeAddedTag];
      for i := 0 to |tags|
        invariant word.tags == old(word.tags) + Elems(tags[..i])
        invariant word.meaning == old(word.meaning) && word.synonyms == old(word.synonyms)
      {
        word.AddTag(tags[i]);
        assert tags[..i + 1] == tags[..i] + [tags[i]];
      }
      assert tags[..|tags|] == tags;
      r := Ok(word.tags);
    }

    /** Adds the listed synonyms to one entry and returns its whole synonym
        set. */
    method AddSynonym(wordKey: string, synonymsWords: seq<string>) returns (r: Result<set<string>>)
      requires Valid()
      modifies if wordKey in entries then {entries[wordKey]} else {}
      ensures Valid() && entries == old(entries)
      ensures wordKey !in entries ==>
        r == Err(NoWordFound(wordKey)) && Synonyms() == old(Synonyms())
      ensures wordKey in entries ==>
        && r == Ok(old(Synonyms())[wordKey] + Elems(synonymsWords))
        && Synonyms() == old(Synonyms())[wordKey := r.value]
      ensures Meanings() == old(Meanings()) && Tags() == old(Tags())
    {
      if wordKey !in entries {
        return Err(NoWordFound(wordKey));
      }
      var word := entries[wordKey];
      for i := 0 to |synonymsWords|
        invariant word.synonyms == old(word.synonyms) + Elems(synonymsWords[..i])
        invariant word.meaning == old(word.meaning) && word.tags == old(word.tags)
      {
        word.AddSynonym(synonymsWords[i]);
        assert synonymsWords[..i + 1] == synonymsWords[..i] + [synonymsWords[i]];
      }
      assert synonymsWords[..|synonymsWords|] == synonymsWords;
      r := Ok(word.synonyms);
    }

    /** Deletes the requested tags from one entry (which must be present: the
        source dereferences it), returning the tags it deleted and those it
        found missing, both in request order. */
    method DeleteTags(word: string, tagList: seq<string>) returns (deletedTags: seq<string>, nonExistTags: seq<string>)
      requires Valid() && word in entries
      modifies entries[word]
      ensures Valid() && entries == old(entries)
      ensures var split := SortTags(old(Tags())[word], tagList);
        && deletedTags == split.deleted && nonExistTags == split.nonExist
        && Tags() == old(Tags())[word := split.remaining]
      ensures Meanings() == old(Meanings()) && Synonyms() == old(Synonyms())
    {
      var entry := entries[word];
      deletedTags, nonExistTags := [], [];
      for i := 0 to |tagList|
        invariant SortTags(old(entry.tags), tagList[..i]) == TagSplit(deletedTags, nonExistTags, entry.tags)
        invariant entry.meaning == old(entry.meaning) && entry.synonyms == old(entry.synonyms)
      {
        var tag := tagList[i];
        assert tagList[..i + 1][..i] == tagList[..i];
        if tag in entry.tags {
          entry.tags := entry.tags - {tag};
          deletedTags := deletedTags + [tag];
        } else {
          nonExistTags := nonExistTags + [tag];
        }
      }
      assert tagList[..|tagList|] == tagList;
    }

    /** The keys, ascending, whose entries the closeness test accepts for the
        query; the bank is left unchanged. */
    method GetClosedWords(word: string, isClosed: (string, string) -> bool) returns (closedWords: seq<string>)
      requires Valid()
      ensures StrictlyAscending(closedWords)
      ensures forall k :: k in closedWords <==> k in entries && isClosed(k, word)
    {
      var keys := SortedKeys(entries.Keys);
      closedWords := [];
      for i := 0 to |keys|
        invariant StrictlyAscending(closedWords)
        invariant forall k :: k in closedWords <==> k in keys[..i] && isClosed(k, word)
      {
        var w := entries[keys[i]];
        if isClosed(w.word, word) {
          forall c | c in closedWords ensures Less(c, keys[i]) {
            var m :| 0 <= m < i && keys[m] == c;
          }
          closedWords := closedWords + [w.word];
        }
        assert keys[..i + 1] == keys[..i] + [keys[i]];
      }
      assert keys[..|keys|] == keys;
    }

    /** Adds one tag to an entry, which must be present (the source
        dereferences it). */
    method AddTagToWord(word: string, tag: string)
      requires Valid() && word in entries
      modifies entries[word]
      ensures Valid() && entries == old(entries)
      ensures Tags() == old(Tags())[word := old(Tags())[word] + {tag}]
      ensures Meanings() == old(Meanings()) && Synonyms() == old(Synonyms())
    {
      entries[word].AddTag(tag);
    }

    /** Every entry once, in ascending order of its word. */
    method GetAllWords() returns (r: seq<Word>)
      requires Valid()
      ensures forall w :: w in r <==> w in entries.Values
      ensures forall i, j :: 0 <= i < j < |r| ==> Less(r[i].word, r[j].word)
    {
      var keys := SortedKeys(entries.Keys);
      r := [];
      for i := 0 to |keys|
        invariant |r| == i
        invariant forall m :: 0 <= m < i ==> r[m] == entries[keys[m]]
      {
        r := r + [entries[keys[i]]];
      }
      forall w | w in entries.Values ensures w in r {
        var k :| k in entries && entries[k] == w;
        var m :| 0 <= m < |keys| && keys[m] == k;
        assert r[m] == w;
      }
    }
  }
}
