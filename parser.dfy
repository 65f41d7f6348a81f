/** `parser.Parser`: turns one line typed by the user into a command. The
    first word (up to the first space) names the command; the rest is its
    argument, cut into fields at the markers `w/` (word), `m/` (meaning),
    `t/` (tag) and `o/` (order). Malformed lines become a `Bad` command that
    carries the kind of error. */
module Parser {
  import opened Results
  import opened Strings

  const W: string := "w/"
  const T: string := "t/"
  const M: string := "m/"
  const O: string := "o/"

  /** The `WordUpException` kinds the parser raises. */
  datatype ParseError =
    | CommandInvalid(input: string)
    | WrongAddFormat
    | EmptyWord
    | WrongDeleteFormat
    | WrongSearchFormat
    | WrongListFormat
    | WrongHistoryFormat
    | ZeroHistoryRequest
    | WrongEditFormat
    | WrongAddTagFormat
    | WrongQuizFormat

  /** The commands, with the data their constructors receive. `Add` carries
      the fields of the new `Word`; the two `DeleteCommand` constructors are
      `DeleteWord` and `DeleteTags`. */
  datatype Command =
    | Exit
    | Add(word: string, meaning: string, tags: set<string>)
    | DeleteWord(word: string)
    | DeleteTags(word: string, tagList: seq<string>)
    | Search(word: string)
    | List(order: string)
    | RecentlyAdded(count: int)
    | FrequentlySearched(order: string)
    | Edit(word: string, meaning: string)
    | AddTag(word: string, newTags: seq<string>)
    | Quiz
    | Bad(error: ParseError)

  /** The first words the parser knows. */
  const Keywords: set<string> :=
    {"exit", "help", "add", "delete", "search", "list", "history", "freq", "edit", "tag", "quiz"}

  /** Each piece trimmed, in order. */
  function TrimAll(ps: seq<string>): (r: seq<string>)
    ensures |r| == |ps|
    ensures forall i :: 0 <= i < |r| ==> IsTrimmed(r[i]) && |r[i]| <= |ps[i]|
    ensures forall i :: 0 <= i < |r| && IsTrimmed(ps[i]) ==> r[i] == ps[i]
    ensures forall i :: 0 <= i < |r| ==> r[i] == Trim(ps[i])
  {
    seq(|ps|, i requires 0 <= i < |ps| => Trim(ps[i]))
  }

  /** The user's line: `None` for `help` (the source returns `null`). */
  function Parse(input: string): (r: Option<Command>)
    ensures r.None? <==> SplitOnce(input, ' ')[0] == "help"
    ensures r == Some(Bad(CommandInvalid(input))) <==> SplitOnce(input, ' ')[0] !in Keywords
  {
    var taskInfo := SplitOnce(input, ' ');
    Dispatch(taskInfo[0], if |taskInfo| == 2 then Some(taskInfo[1]) else None, input)
  }

  /** The command named by the first word, given the argument that followed
      it (if any); an unknown first word is reported with the whole line. */
  function Dispatch(userCommand: string, arg: Option<string>, input: string): (r: Option<Command>)
    ensures r.None? <==> userCommand == "help"
    ensures r == Some(Bad(CommandInvalid(input))) <==> userCommand !in Keywords
    ensures userCommand == "exit" ==> r == Some(Exit)
    ensures userCommand == "add" ==> r == Some(ParseAdd(arg))
    ensures userCommand == "delete" ==> r == Some(ParseDelete(arg))
    ensures userCommand == "search" ==> r == Some(ParseSearch(arg))
    ensures userCommand == "list" ==> r == Some(ParseList(arg))
    ensures userCommand == "history" ==> r == Some(ParseHistory(arg))
    ensures userCommand == "freq" ==> r == Some(ParseSearchFrequency(arg))
    ensures userCommand == "edit" ==> r == Some(ParseEdit(arg))
    ensures userCommand == "tag" ==> r == Some(ParseTag(arg))
    ensures userCommand == "quiz" ==> r == Some(ParseQuiz(arg))
  {
    if userCommand == "exit" then Some(Exit)
    else if userCommand == "help" then None
    else if userCommand == "add" then Some(ParseAdd(arg))
    else if userCommand == "delete" then Some(ParseDelete(arg))
    else if userCommand == "search" then Some(ParseSearch(arg))
    else if userCommand == "list" then Some(ParseList(arg))
    else if userCommand == "history" then Some(ParseHistory(arg))
    else if userCommand == "freq" then Some(ParseSearchFrequency(arg))
    else if userCommand == "edit" then Some(ParseEdit(arg))
    else if userCommand == "tag" then Some(ParseTag(arg))
    else if userCommand == "quiz" then Some(ParseQuiz(arg))
    else Some(Bad(CommandInvalid(input)))
  }

  /** A line `cmd rest` whose first word has no space is dispatched on `cmd`
      with the argument `rest`, and a line without a space with no argument. */
  lemma ParseDispatches(cmd: string, rest: Option<string>)
    requires ' ' !in cmd
    ensures var line := if rest.Some? then cmd + " " + rest.value else cmd;
      Parse(line) == Dispatch(cmd, rest, line)
  {
    if rest.Some? {
      SplitOnceAt(cmd, ' ', rest.value);
    }
  }

  /** `add w/<word> w/<meaning>[t/<tag>...]`: exactly three `w/` pieces
      (the first is ignored); the word and the meaning, trimmed, must not be
      empty; the tags are kept untrimmed. */
  function ParseAdd(arg: Option<string>): (r: Command)
    ensures r.Add? || r == Bad(WrongAddFormat) || r == Bad(EmptyWord)
    ensures arg.None? ==> r == Bad(WrongAddFormat)
    ensures arg.Some? && |Split(arg.value, W)| != 3 ==> r == Bad(WrongAddFormat)
    ensures r.Add? ==> arg.Some? && |Split(arg.value, W)| == 3
    ensures r.Add? ==> r.word != [] && IsTrimmed(r.word) && r.meaning != [] && IsTrimmed(r.meaning)
    ensures r.Add? ==> r.word == Trim(Split(arg.value, W)[1])
  {
    if arg.None? then Bad(WrongAddFormat) else AddOfPieces(Split(arg.value, W))
  }

  /** The `w/` pieces of an `add` argument: exactly three are needed. */
  function AddOfPieces(wordDetail: seq<string>): (r: Command)
    ensures r == Bad(WrongAddFormat) <==> |wordDetail| != 3
    ensures |wordDetail| == 3 ==> r.Add? || r == Bad(EmptyWord)
    ensures |wordDetail| == 3 && Trim(wordDetail[1]) == [] ==> r == Bad(EmptyWord)
    ensures r.Add? ==> r.word == Trim(wordDetail[1]) != [] && r.meaning != [] && IsTrimmed(r.meaning)
  {
    if |wordDetail| != 3 then Bad(WrongAddFormat)
    else AddOfFields(Trim(wordDetail[1]), Split(wordDetail[2], T))
  }

  /** The trimmed word and the `t/` pieces of the rest: the first piece,
      trimmed, is the meaning and the others are the tags. */
  function AddOfFields(wordDescription: string, meaningAndTag: seq<string>): (r: Command)
    requires IsTrimmed(wordDescription)
    ensures r.Add? || r == Bad(EmptyWord)
    ensures r.Add? <==> wordDescription != [] && |meaningAndTag| >= 1 && Trim(meaningAndTag[0]) != []
    ensures r.Add? ==> r.word == wordDescription && r.meaning == Trim(meaningAndTag[0])
    ensures r.Add? ==> r.tags == set t | t in meaningAndTag[1..]
  {
    if |wordDescription| == 0 then Bad(EmptyWord)
    else
      // the source reads `meaningAndTag[0]` unguarded: see AddMeaningAsWritten
      var meaning := if |meaningAndTag| == 0 then "" else Trim(meaningAndTag[0]);
      if |meaning| == 0 then Bad(EmptyWord)
      else Add(wordDescription, meaning, set t | t in meaningAndTag[1..])
  }

  /** `delete w/<word>` deletes the word: the text after `w/`, untrimmed
      (a line whose `t/` pieces are all empty counts as this form too).
      `delete w/<word>t/<tag>...` deletes tags: the word and every tag
      trimmed, in order. */
  function ParseDelete(arg: Option<string>): (r: Command)
    ensures r.Bad? <==> arg.None? || !(W <= arg.value)
    ensures r.Bad? ==> r.error == WrongDeleteFormat
    ensures r.Bad? || r.DeleteWord? || r.DeleteTags?
    ensures r.DeleteWord? ==> arg.Some? && arg.value == W + r.word
    ensures r.DeleteWord? <==> arg.Some? && W <= arg.value && |Split(arg.value, T)| == 1
    ensures r.DeleteTags? ==> IsTrimmed(r.word) && |r.tagList| >= 1 && forall t :: t in r.tagList ==> IsTrimmed(t)
    ensures r.DeleteTags? ==> arg.Some? && |Split(arg.value, T)| > 1 && |Split(arg.value, T)[0]| >= 2 && r.word == Trim(Split(arg.value, T)[0][2..])
    ensures r.DeleteTags? ==> r.tagList == TrimAll(Split(arg.value, T)[1..])
  {
    if arg.None? || !(W <= arg.value) then Bad(WrongDeleteFormat)
    else
      var wordAndTags := Split(arg.value, T);
      SplitKeepsPrefix(arg.value, W, T);
      if |wordAndTags| == 1 then DeleteWord(arg.value[2..])
      else DeleteTags(Trim(wordAndTags[0][2..]), TrimAll(wordAndTags[1..]))
  }

  /** `search w/<word>`: the trimmed text after `w/`. */
  function ParseSearch(arg: Option<string>): (r: Command)
    ensures r.Search? <==> arg.Some? && W <= arg.value
    ensures !r.Search? ==> r == Bad(WrongSearchFormat)
    ensures r.Search? ==> IsTrimmed(r.word) && |r.word| <= |arg.value| - 2
    ensures r.Search? ==> r.word == Trim(arg.value[2..])
  {
    if arg.None? || !(W <= arg.value) then Bad(WrongSearchFormat)
    else Search(Trim(arg.value[2..]))
  }

  /** The order argument of `list` and `freq`: none at all, `o/asc` or
      `o/desc`. */
  function ListOrder(arg: Option<string>): (r: Option<string>)
    ensures r == Some("") <==> arg.None?
    ensures r == Some("asc") <==> arg == Some("o/asc")
    ensures r == Some("desc") <==> arg == Some("o/desc")
    ensures r.None? || r.value in {"", "asc", "desc"}
  {
    assert "o/asc" == O + "asc" && "o/desc" == O + "desc";
    if arg.None? then Some("")
    else if !(O <= arg.value) then None
    else
      var order := arg.value[2..];
      assert arg.value == O + order;
      if order != "asc" && order != "desc" then None else Some(order)
  }

  function ParseList(arg: Option<string>): (r: Command)
    ensures r == List("") <==> arg.None?
    ensures r == List("asc") <==> arg == Some("o/asc")
    ensures r == List("desc") <==> arg == Some("o/desc")
    ensures r.List? || r == Bad(WrongListFormat)
    ensures r.List? ==> r.order in {"", "asc", "desc"}
  {
    match ListOrder(arg)
    case None => Bad(WrongListFormat)
    case Some(order) => List(order)
  }

  function ParseSearchFrequency(arg: Option<string>): (r: Command)
    ensures r == FrequentlySearched("") <==> arg.None?
    ensures r == FrequentlySearched("asc") <==> arg == Some("o/asc")
    ensures r == FrequentlySearched("desc") <==> arg == Some("o/desc")
    ensures r.FrequentlySearched? || r == Bad(WrongListFormat)
    ensures r.FrequentlySearched? ==> r.order in {"", "asc", "desc"}
  {
    match ListOrder(arg)
    case None => Bad(WrongListFormat)
    case Some(order) => FrequentlySearched(order)
  }

  /** `history <n>`: the literal `0` is refused as a request for nothing,
      anything `Integer.parseInt` rejects as malformed; every other integer
      (`00` and negative ones included) is accepted. */
  function ParseHistory(arg: Option<string>): (r: Command)
    ensures r.RecentlyAdded? <==> arg.Some? && arg.value != "0" && ParseInt(arg.value).Some?
    ensures r.RecentlyAdded? ==> ParseInt(arg.value) == Some(r.count) && IntMin <= r.count <= IntMax
    ensures arg == Some("0") ==> r == Bad(ZeroHistoryRequest)
    ensures r.RecentlyAdded? || r.Bad?
    ensures r.Bad? ==> r.error == WrongHistoryFormat || (r.error == ZeroHistoryRequest && arg == Some("0"))
    ensures arg.None? ==> r == Bad(WrongHistoryFormat)
    ensures arg.Some? && ParseInt(arg.value).None? ==> r == Bad(WrongHistoryFormat)
  {
    if arg.None? then Bad(WrongHistoryFormat)
    else if arg.value == "0" then Bad(ZeroHistoryRequest)
    else
      match ParseInt(arg.value)
      case None => Bad(WrongHistoryFormat)
      case Some(n) => RecentlyAdded(n)
  }

  /** `edit w/<word>m/<meaning>`: exactly two `m/` pieces; the word is
      trimmed, the meaning kept as typed. */
  function ParseEdit(arg: Option<string>): (r: Command)
    ensures r.Edit? <==> arg.Some? && W <= arg.value && |Split(arg.value, M)| == 2
    ensures !r.Edit? ==> r == Bad(WrongEditFormat)
    ensures r.Edit? ==> IsTrimmed(r.word) && r.meaning != [] && !Contains(r.meaning, M)
    ensures r.Edit? ==> |Split(arg.value, M)[0]| >= 2 && r.word == Trim(Split(arg.value, M)[0][2..])
    ensures r.Edit? ==> r.meaning == Split(arg.value, M)[1]
  {
    if arg.None? || !(W <= arg.value) then Bad(WrongEditFormat)
    else
      var wordAndMeanings := Split(arg.value, M);
      if |wordAndMeanings| != 2 then Bad(WrongEditFormat)
      else
        SplitKeepsPrefix(arg.value, W, M);
        SplitPieces(arg.value, M);
        Edit(Trim(wordAndMeanings[0][2..]), wordAndMeanings[1])
  }

  /** `tag w/<word>t/<tag>...`: at least one `t/` piece; the word and every
      tag trimmed, in order. */
  function ParseTag(arg: Option<string>): (r: Command)
    ensures r.AddTag? <==> arg.Some? && W <= arg.value && |Split(arg.value, T)| > 1
    ensures !r.AddTag? ==> r == Bad(WrongAddTagFormat)
    ensures r.AddTag? ==> IsTrimmed(r.word) && |r.newTags| >= 1 && forall t :: t in r.newTags ==> IsTrimmed(t)
    ensures r.AddTag? ==> |Split(arg.value, T)[0]| >= 2 && r.word == Trim(Split(arg.value, T)[0][2..])
    ensures r.AddTag? ==> r.newTags == TrimAll(Split(arg.value, T)[1..])
  {
    if arg.None? || !(W <= arg.value) then Bad(WrongAddTagFormat)
    else
      var wordAndTags := Split(arg.value, T);
      SplitKeepsPrefix(arg.value, W, T);
      if |wordAndTags| == 1 then Bad(WrongAddTagFormat)
      else AddTag(Trim(wordAndTags[0][2..]), TrimAll(wordAndTags[1..]))
  }

  /** `quiz` takes no argument. */
  function ParseQuiz(arg: Option<string>): (r: Command)
    ensures r == Quiz <==> arg.None?
    ensures r != Quiz ==> r == Bad(WrongQuizFormat)
  {
    if arg.Some? then Bad(WrongQuizFormat) else Quiz
  }

  // ------------------------------------------------------------ round trips

  /** `add w/<word field>w/<meaning field>t/<tag>...` parses into the
      trimmed word field, the trimmed meaning field and the set of tags as
      typed, or into an empty-word error when either field trims to nothing. */
  lemma ParseAddOfRendered(wf: string, mf: string, tags: seq<string>)
    requires !Contains(wf, W)
    requires mf != [] && !Contains(mf, W) && !Contains(mf, T)
    requires forall k :: 0 <= k < |tags| ==> !Contains(tags[k], W) && !Contains(tags[k], T)
    requires tags == [] || tags[|tags| - 1] != []
    ensures ParseAdd(Some(W + wf + W + Join([mf] + tags, T))) ==
      if Trim(wf) == [] || Trim(mf) == [] then Bad(EmptyWord)
      else Add(Trim(wf), Trim(mf), set t | t in tags)
  {
    var body := Join([mf] + tags, T);
    AddBodySplits(mf, tags);
    AddLineSplits(wf, body);
    ParseAddOfPieces(W + wf + W + body, wf, mf, tags, body);
  }

  lemma ParseAddOfPieces(line: string, wf: string, mf: string, tags: seq<string>, body: string)
    requires Split(line, W) == ["", wf, body]
    requires Split(body, T) == [mf] + tags
    ensures ParseAdd(Some(line)) ==
      if Trim(wf) == [] || Trim(mf) == [] then Bad(EmptyWord)
      else Add(Trim(wf), Trim(mf), set t | t in tags)
  {
    assert AddOfPieces(["", wf, body]) == AddOfFields(Trim(wf), [mf] + tags);
    assert ([mf] + tags)[1..] == tags;
  }

  /** With the usual spacing, `add w/cat  w/ a small feline t/pet`: the
      padding around the word and the meaning is dropped. */
  lemma ParseAddOfPadded(p: string, w: string, q: string, m: string, tags: seq<string>)
    requires forall k :: 0 <= k < |p| ==> IsSpace(p[k])
    requires forall k :: 0 <= k < |q| ==> IsSpace(q[k])
    requires w != [] && IsTrimmed(w) && !Contains(w, W)
    requires m != [] && IsTrimmed(m) && !Contains(m, W) && !Contains(m, T)
    requires forall k :: 0 <= k < |tags| ==> !Contains(tags[k], W) && !Contains(tags[k], T)
    requires tags == [] || tags[|tags| - 1] != []
    ensures ParseAdd(Some(W + (p + w + q) + W + Join([p + m + q] + tags, T))) == Add(w, m, set t | t in tags)
  {
    TrimPadded(p, w, q);
    TrimPadded(p, m, q);
    PaddingKeepsOut(p, w, q, W);
    PaddingKeepsOut(p, m, q, W);
    PaddingKeepsOut(p, m, q, T);
    ParseAddOfRendered(p + w + q, p + m + q, tags);
  }

  /** A rendered `add` line splits on `w/` into an ignored empty piece, the
      word field and the meaning-and-tags part. */
  lemma AddLineSplits(wf: string, body: string)
    requires !Contains(wf, W)
    requires body != [] && !Contains(body, W)
    ensures Split(W + wf + W + body, W) == ["", wf, body]
  {
    JoinThree("", wf, body, W);
    assert "" + W + wf + W + body == W + wf + W + body;
    WithoutFirstChar("", W);
    var pieces := ["", wf, body];
    assert forall k :: 0 <= k < |pieces| ==> !Contains(pieces[k], W);
    SplitOfJoin(pieces, W);
  }

  /** The meaning-and-tags part of a rendered `add`: free of `w/`, and split
      on `t/` into the meaning and the tags. */
  lemma AddBodySplits(m: string, tags: seq<string>)
    requires m != [] && !Contains(m, W) && !Contains(m, T)
    requires forall k :: 0 <= k < |tags| ==> !Contains(tags[k], W) && !Contains(tags[k], T)
    requires tags == [] || tags[|tags| - 1] != []
    ensures var body := Join([m] + tags, T);
      body != [] && !Contains(body, W) && Split(body, T) == [m] + tags
  {
    var ps := [m] + tags;
    forall k | 0 <= k < |ps| ensures !Contains(ps[k], W) && !Contains(ps[k], T) {
      if k > 0 {
        assert ps[k] == tags[k - 1];
      }
    }
    JoinKeepsOut(ps, T, W);
    if tags == [] {
      assert Join(ps, T) == m;
      SplitWithout(m, T);
    } else {
      assert ps[|ps| - 1] == tags[|tags| - 1];
      assert IsMarker(T);
      SplitOfJoin(ps, T);
      assert |Join(ps, T)| >= |m| by {
        assert ps[1..] == tags;
      }
    }
  }

  /** `delete w/<word>` with no `t/` in the word deletes exactly that word,
      spaces and all. */
  lemma ParseDeleteWordOfRendered(w: string)
    requires !Contains(w, T)
    ensures ParseDelete(Some(W + w)) == DeleteWord(w)
  {
    PrefixKeepsOut(W, w, T);
    SplitWithout(W + w, T);
  }

  /** `delete w/<word>t/<tag>...` parses into the trimmed word and the
      trimmed tags, in the order written. */
  lemma ParseDeleteTagsOfRendered(w: string, tags: seq<string>)
    requires !Contains(w, T)
    requires |tags| >= 1 && tags[|tags| - 1] != []
    requires forall k :: 0 <= k < |tags| ==> !Contains(tags[k], T)
    ensures ParseDelete(Some(Join([W + w] + tags, T))) == DeleteTags(Trim(w), TrimAll(tags))
  {
    TaggedLineSplits(w, tags);
    TaggedFields(w, tags);
  }

  /** `tag w/<word>t/<tag>...` parses into the trimmed word and the trimmed
      tags, in the order written. */
  lemma ParseTagOfRendered(w: string, tags: seq<string>)
    requires !Contains(w, T)
    requires |tags| >= 1 && tags[|tags| - 1] != []
    requires forall k :: 0 <= k < |tags| ==> !Contains(tags[k], T)
    ensures ParseTag(Some(Join([W + w] + tags, T))) == AddTag(Trim(w), TrimAll(tags))
  {
    TaggedLineSplits(w, tags);
    TaggedFields(w, tags);
  }

  /** `edit w/<word>m/<meaning>` parses back into the word and the meaning,
      which is kept exactly as typed. */
  lemma ParseEditOfRendered(w: string, m: string)
    requires !Contains(w, M)
    requires m != [] && !Contains(m, M)
    ensures ParseEdit(Some(W + w + M + m)) == Edit(Trim(w), m)
  {
    PrefixKeepsOut(W, w, M);
    assert W + w + M + m == Join([W + w, m], M);
    SplitOfJoin([W + w, m], M);
    assert (W + w)[2..] == w;
  }

  /** `search w/<word>` finds the word it was written with. */
  lemma ParseSearchOfRendered(p: string, w: string, q: string)
    requires forall k :: 0 <= k < |p| ==> IsSpace(p[k])
    requires forall k :: 0 <= k < |q| ==> IsSpace(q[k])
    requires IsTrimmed(w)
    ensures ParseSearch(Some(W + p + w + q)) == Search(w)
  {
    assert (W + p + w + q)[2..] == p + w + q;
    TrimPadded(p, w, q);
  }

  /** `history <n>` written in decimal asks for `n` words, for every positive
      `int`. */
  lemma ParseHistoryOfDecimal(n: nat)
    requires 1 <= n <= IntMax
    ensures ParseHistory(Some(Decimal(n))) == RecentlyAdded(n)
  {
    ParseIntOfDecimal(n);
    DigitsOfDecimal(n);
    assert DigitsValue("0") == 0;
  }

  /** Only the literal `0` is refused: `00` asks for zero words and `-1` for
      a negative number of them. */
  lemma ParseHistoryLeniency()
    ensures ParseHistory(Some("00")) == RecentlyAdded(0)
    ensures ParseHistory(Some("-1")) == RecentlyAdded(-1)
  {
    assert DigitsValue("00") == 0 by { assert "00"[..1] == "0"; }
    assert DigitsValue("1") == 1;
    assert "-1"[1..] == "1";
  }

  // ------------------------------------------------------------- helpers

  /** Spaces around a text bring in no marker. */
  lemma PaddingKeepsOut(p: string, w: string, q: string, d: string)
    requires |d| == 2 && !IsSpace(d[0]) && !IsSpace(d[1]) && !Contains(w, d)
    requires forall k :: 0 <= k < |p| ==> IsSpace(p[k])
    requires forall k :: 0 <= k < |q| ==> IsSpace(q[k])
    ensures !Contains(p + w + q, d)
  {
    assert d[0] !in p && d[0] !in q;
    WithoutFirstChar(p, d);
    WithoutFirstChar(q, d);
    if Contains(p + w, d) {
      ContainsConcat(p, w, d);
    }
    if Contains(p + w + q, d) {
      ContainsConcat(p + w, q, d);
    }
  }

  /** No piece of a split contains the delimiter. */
  lemma SplitPieces(s: string, d: string)
    requires |d| > 0
    ensures forall k :: 0 <= k < |Split(s, d)| ==> !Contains(Split(s, d)[k], d)
  {
    if Contains(s, d) {
      var ps := Pieces(s, d);
      assert forall k :: 0 <= k < |DropTrailingEmpty(ps)| ==> DropTrailingEmpty(ps)[k] == ps[k];
    }
  }

  /** The split of `w/<word>t/<tag>...` on `t/`, shared by `delete` and `tag`. */
  lemma TaggedLineSplits(w: string, tags: seq<string>)
    requires !Contains(w, T)
    requires |tags| >= 1 && tags[|tags| - 1] != []
    requires forall k :: 0 <= k < |tags| ==> !Contains(tags[k], T)
    ensures var s := Join([W + w] + tags, T);
      W <= s && Split(s, T) == [W + w] + tags
  {
    PrefixKeepsOut(W, w, T);
    assert IsMarker(T);
    SplitOfJoinCons(W + w, tags, T);
  }

  /** Splitting a head piece joined to further pieces gives them back. */
  lemma SplitOfJoinCons(head: string, tags: seq<string>, d: string)
    requires IsMarker(d) && !Contains(head, d)
    requires |tags| >= 1 && tags[|tags| - 1] != []
    requires forall k :: 0 <= k < |tags| ==> !Contains(tags[k], d)
    ensures Join([head] + tags, d) == head + d + Join(tags, d)
    ensures Split(Join([head] + tags, d), d) == [head] + tags
  {
    var ps := [head] + tags;
    assert ps[1..] == tags;
    assert ps[|ps| - 1] == tags[|tags| - 1];
    forall k | 0 <= k < |ps| ensures !Contains(ps[k], d) {
      if k > 0 {
        assert ps[k] == tags[k - 1];
      }
    }
    SplitOfJoin(ps, d);
  }

  /** The word and the tags read back from those pieces. */
  lemma TaggedFields(w: string, tags: seq<string>)
    ensures var ps := [W + w] + tags;
      Trim(ps[0][2..]) == Trim(w) && TrimAll(ps[1..]) == TrimAll(tags)
  {
    var ps := [W + w] + tags;
    assert ps[1..] == tags;
    assert ps[0][2..] == w;
  }

  // --------------------------------------------------------------- finding

  /** The meaning `parseAdd` reads from the third `w/` piece as the source
      writes it: `None` where it indexes the first `t/` piece of a split that
      has none, which throws an exception the parser does not catch. */
  function AddMeaningAsWritten(detail: string): (r: Option<string>)
    ensures r.None? <==> Split(detail, T) == []
    ensures r.Some? ==> IsTrimmed(r.value)
  {
    var meaningAndTag := Split(detail, T);
    if |meaningAndTag| == 0 then None else Some(Trim(meaningAndTag[0]))
  }

  /** `add w/cat w/t/` (the argument after the first space is `w/cat w/t/`,
      see ParseDispatches): the third `w/` piece is `t/`, which
      `split("t/")` turns into no pieces at all, so the source fails on the
      unguarded index instead of reporting an empty meaning. */
  lemma AddBareTagIndexesPastEnd()
    ensures Split("w/cat w/t/", W) == ["", "cat ", "t/"]
    ensures AddMeaningAsWritten("t/") == None
  {
    BareTagPieces();
  }

  /** The corrected parser reports that argument as an empty meaning. */
  lemma AddBareTagRejected()
    ensures ParseAdd(Some("w/cat w/t/")) == Bad(EmptyWord)
  {
    BareTagPieces();
    assert Trim("cat ") == "cat" by {
      TrimAppendSpace("cat", ' ');
      TrimOfTrimmed("cat");
    }
    assert AddOfPieces(["", "cat ", "t/"]) == AddOfFields("cat", []);
  }

  lemma BareTagPieces()
    ensures Split("w/cat w/t/", W) == ["", "cat ", "t/"]
    ensures Split("t/", T) == []
  {
    WithoutFirstChar("", W);
    WithoutFirstChar("cat ", W);
    WithoutFirstChar("t/", W);
    assert Join(["", "cat ", "t/"], W) == "w/cat w/t/";
    SplitOfJoin(["", "cat ", "t/"], W);
    assert OccursAt("t/", T, 0);
    assert Pieces("t/", T) == [""] + Pieces("", T);
    assert Pieces("", T) == [""];
  }
}
