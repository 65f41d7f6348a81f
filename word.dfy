/** `dictionary.Word`: one entry of the vocabulary. */
module Words {
  import opened Results

  /** The key `word` and the search counter are set by the constructors and
      no method of the class changes them afterwards, so they are `const`. */
  class Word {
    const word: string
    var meaning: string
    var tags: set<string>
    /** Synonyms registered through `WordBank.addSynonym`. */
    var synonyms: set<string>
    const numberOfSearches: int
    /** The `closetSearch` field: `None` until set. */
    var closestSearch: Option<string>

    /** A word without tags; it counts as searched once. */
    constructor (word: string, meaning: string)
      ensures this.word == word && this.meaning == meaning
      ensures tags == {} && synonyms == {}
      ensures numberOfSearches == 1 && closestSearch == None
    {
      this.word := word;
      this.meaning := meaning;
      this.tags := {};
      this.synonyms := {};
      this.numberOfSearches := 1;
      this.closestSearch := None;
    }

    /** A word carrying the given tags; it also counts as searched once. */
    constructor WithTags(word: string, meaning: string, tags: set<string>)
      ensures this.word == word && this.meaning == meaning
      ensures this.tags == tags && synonyms == {}
      ensures numberOfSearches == 1 && closestSearch == None
    {
      this.word := word;
      this.meaning := meaning;
      this.tags := tags;
      this.synonyms := {};
      this.numberOfSearches := 1;
      this.closestSearch := None;
    }

    method SetClosestSearch(closestSearch: string)
      modifies this
      ensures this.closestSearch == Some(closestSearch)
      ensures meaning == old(meaning) && tags == old(tags) && synonyms == old(synonyms)
    {
      this.closestSearch := Some(closestSearch);
    }

    /** Adds one tag; adding a tag the word already has changes nothing. */
    method AddTag(tag: string)
      modifies this
      ensures tags == old(tags) + {tag}
      ensures tag in old(tags) ==> tags == old(tags)
      ensures meaning == old(meaning) && synonyms == old(synonyms) && closestSearch == old(closestSearch)
    {
      tags := tags + {tag};
    }

    /** Adds one synonym (the set the word's `getSynonyms` returns). */
    method AddSynonym(synonym: string)
      modifies this
      ensures synonyms == old(synonyms) + {synonym}
      ensures meaning == old(meaning) && tags == old(tags) && closestSearch == old(closestSearch)
    {
      synonyms := synonyms + {synonym};
    }

    /** Replaces the meaning and nothing else. */
    method EditMeaning(newMeaning: string)
      modifies this
      ensures meaning == newMeaning
      ensures tags == old(tags) && synonyms == old(synonyms) && closestSearch == old(closestSearch)
    {
      meaning := newMeaning;
    }

    /** The display line `word: meaning`, from which the word and the meaning
        can be cut back out. */
    function ToString(): (r: string)
      reads this
      ensures |r| == |word| + 2 + |meaning|
      ensures r[..|word|] == word && r[|word|..|word| + 2] == ": " && r[|word| + 2..] == meaning
    {
      word + ": " + meaning
    }
  }
}
