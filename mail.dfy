/** The plain-text part of `send_email`: the subject header and the text body
    built from the word and its synonyms. The message is sent from the
    configured address to that same address, which is a parameter here. */
module Mail {
  import opened Text
  import opened Vocab

  const SubjectPrefix: string := "Word of the Day: "
  const SynonymsPrefix: string := "Synonyms: "
  const SynonymSeparator: string := ", "
  const ReplyLine: string := "Reply 'Y' if you like it or 'N' if not."

  /** The subject header: the prefix, then the word, so the word can be read
      back from it. */
  function Subject(word: string): (r: string)
    ensures |r| == |SubjectPrefix| + |word|
    ensures r[..|SubjectPrefix|] == SubjectPrefix && r[|SubjectPrefix|..] == word
  {
    SubjectPrefix + word
  }

  lemma SubjectInjective(w1: string, w2: string)
    requires Subject(w1) == Subject(w2)
    ensures w1 == w2
  {
    assert w1 == Subject(w1)[|SubjectPrefix|..];
  }

  /** The second line of the body: the label, then the synonyms joined by
      ", ". */
  function SynonymsLine(synonyms: seq<string>): (r: string)
    ensures |r| == |SynonymsPrefix| + |Join(synonyms, SynonymSeparator)|
    ensures r[..|SynonymsPrefix|] == SynonymsPrefix
    ensures r[|SynonymsPrefix|..] == Join(synonyms, SynonymSeparator)
  {
    SynonymsPrefix + Join(synonyms, SynonymSeparator)
  }

  /** The text of the triple-quoted f-string: two filled-in lines, an empty
      line, the reply request, and a final newline. */
  function Body(word: string, synonyms: seq<string>): (r: string)
    ensures |r| == |Subject(word)| + |SynonymsLine(synonyms)| + |ReplyLine| + 4
    ensures r[..|Subject(word)| + 1] == Subject(word) + "\n"
    ensures r[|r| - |ReplyLine| - 3..] == "\n\n" + ReplyLine + "\n"
    ensures r[|Subject(word)| + 1..|r| - |ReplyLine| - 3] == SynonymsLine(synonyms)
  {
    SubjectPrefix + word + "\n" + SynonymsLine(synonyms) + "\n" + "\n" + ReplyLine + "\n"
  }

  /** Read line by line, the body is the subject, the synonyms line with the
      synonyms joined by ", " in list order, an empty line, the reply request,
      and the empty piece after the final newline. */
  lemma BodyLines(word: string, synonyms: seq<string>)
    requires '\n' !in word
    requires forall k :: 0 <= k < |synonyms| ==> '\n' !in synonyms[k]
    ensures Split(Body(word, synonyms), '\n') == [Subject(word), SynonymsLine(synonyms), "", ReplyLine, ""]
  {
    var l1 := SynonymsLine(synonyms);
    JoinAvoids(synonyms, SynonymSeparator, '\n');
    assert '\n' !in l1;
    FiveLines(Subject(word), l1, ReplyLine);
    SplitJoin([Subject(word), l1, "", ReplyLine, ""], '\n');
  }

  lemma FiveLines(a: string, b: string, d: string)
    ensures Join([a, b, "", d, ""], "\n") == a + "\n" + b + "\n" + "\n" + d + "\n"
  {
    JoinCons(a, [b, "", d, ""], "\n");
    JoinCons(b, ["", d, ""], "\n");
    JoinCons("", [d, ""], "\n");
    JoinCons(d, [""], "\n");
    assert [a, b, "", d, ""] == [a] + [b, "", d, ""];
    assert [b, "", d, ""] == [b] + ["", d, ""];
    assert ["", d, ""] == [""] + [d, ""];
    assert [d, ""] == [d] + [""];
  }

  datatype Message = Message(subject: string, from: string, to: string, text: string)

  /** The headers and plain-text part of the message, which the sender
      addresses to itself. */
  function PlainMessage(sender: string, word: string, synonyms: seq<string>): (m: Message)
    ensures m.from == m.to && m.from == sender
  {
    Message(Subject(word), sender, sender, Body(word, synonyms))
  }

  /** The first line of the message text repeats its subject and the second
      lists the synonyms, when nothing holds a newline. */
  lemma PlainMessageRepeatsSubject(sender: string, word: string, synonyms: seq<string>)
    requires '\n' !in word
    requires forall k :: 0 <= k < |synonyms| ==> '\n' !in synonyms[k]
    ensures var m := PlainMessage(sender, word, synonyms);
            Split(m.text, '\n') == [m.subject, SynonymsLine(synonyms), "", ReplyLine, ""]
  {
    BodyLines(word, synonyms);
  }

  /** The body sent for a word of the day starts with its subject line and
      then lists its synonyms, provided no lemma name holds a newline. */
  lemma WordOfTheDayBody(choice: nat, wordnet: string -> seq<seq<string>>)
    requires choice < |CommonWords|
    requires forall i, j :: 0 <= i < |wordnet(PickWord(choice))| && 0 <= j < |wordnet(PickWord(choice))[i]| ==>
               '\n' !in wordnet(PickWord(choice))[i][j]
    ensures var w := GetWordAndSynonyms(choice, wordnet);
            Split(Body(w.word, w.synonyms), '\n') == [Subject(w.word), SynonymsLine(w.synonyms), "", ReplyLine, ""]
  {
    var w := GetWordAndSynonyms(choice, wordnet);
    var synsets := wordnet(w.word);
    forall k | 0 <= k < |w.synonyms|
      ensures '\n' !in w.synonyms[k]
    {
      assert w.synonyms[k] in w.synonyms;
      var i, j :| 0 <= i < |synsets| && 0 <= j < |synsets[i]| && w.synonyms[k] == ReplaceUnderscore(synsets[i][j]);
      assert '\n' !in synsets[i][j];
    }
    BodyLines(w.word, w.synonyms);
  }
}
