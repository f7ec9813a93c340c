/** The game screen's state and the operations that change it: the list of
    start words, the current root word and the guesses accepted so far. */
module WordScramble {
  import opened Text
  import opened Rules

  /** What loading the bundled list of start words can come to: the
      resource is missing from the bundle, it is there but cannot be read,
      or its text was read. */
  datatype Resource = Missing | Unreadable | Loaded(text: string)

  class ContentView {
    /** Accepted guesses, most recent first. */
    var usedWords: seq<string>
    var rootWord: string
    /** The start words, one per line of the bundled resource. */
    var fileContents: seq<string>

    /** The accepted guesses are well formed: long enough, normalised and
        pairwise distinct. */
    predicate Valid()
      reads this
    {
      WellFormed(usedWords)
    }

    /** Every accepted guess can be spelt from the current root word. Only
        `NewGame` re-establishes this after a change of root. */
    predicate Consistent()
      reads this
    {
      AllSpellable(usedWords, rootWord)
    }

    constructor ()
      ensures usedWords == [] && rootWord == "" && fileContents == []
      ensures Valid() && Consistent()
    {
      usedWords := [];
      rootWord := "";
      fileContents := [];
    }

    /** Reads the start words and picks one of them as the root word. A
        missing resource is a fatal error, so it is excluded; an unreadable
        one changes nothing. The accepted guesses are kept as they are. */
    method StartGame(resource: Resource)
      requires resource != Missing
      modifies this
      ensures resource == Unreadable ==>
                fileContents == old(fileContents) && rootWord == old(rootWord)
      ensures resource.Loaded? ==>
                fileContents == SplitLines(resource.text) && rootWord in fileContents
      ensures usedWords == old(usedWords)
    {
      if resource.Loaded? {
        fileContents := SplitLines(resource.text);
        assert fileContents[0] in fileContents;
        var word :| word in fileContents;
        rootWord := word;
      }
    }

    /** Starts a new round: some start word becomes the root word and the
        accepted guesses are cleared. With no start words this is a fatal
        error, so it is excluded. */
    method NewGame()
      requires |fileContents| > 0
      modifies this
      ensures rootWord in fileContents && usedWords == []
      ensures fileContents == old(fileContents)
      ensures Valid() && Consistent()
    {
      assert fileContents[0] in fileContents;
      var word :| word in fileContents;
      rootWord := word;
      usedWords := [];
    }

    /** True when no accepted guess equals `word`. */
    function IsOriginal(word: string): (r: bool)
      reads this
      ensures r <==> forall i :: 0 <= i < |usedWords| ==> usedWords[i] != word
    {
      word !in usedWords
    }

    /** Takes each letter of `word` out of a copy of the root word in turn,
        and answers false as soon as a letter is not there. */
    method IsPossible(word: string) returns (ok: bool)
      ensures ok <==> Spellable(word, rootWord)
    {
      var tempWord := rootWord;
      for i := 0 to |word|
        invariant multiset(tempWord) + multiset(word[..i]) == multiset(rootWord)
      {
        var letter := word[i];
        assert word[..i + 1] == word[..i] + [letter];
        var pos := FirstIndex(tempWord, letter);
        if pos.Some? {
          var rest := RemoveAt(tempWord, pos.value);
          assert multiset(tempWord) == multiset(rest) + multiset{letter};
          tempWord := rest;
        } else {
          assert multiset(tempWord)[letter] == 0;
          assert multiset(word[..i + 1])[letter] > multiset(rootWord)[letter];
          assert word == word[..i + 1] + word[i + 1..];
          return false;
        }
      }
      assert word[..|word|] == word;
      return true;
    }

    /** Normalises the guess and runs the guards; an accepted guess is put
        at the front of the accepted guesses, anything else changes
        nothing. `isReal` is the dictionary. */
    method AddNewWord(raw: string, isReal: string -> bool) returns (outcome: Outcome)
      modifies this
      ensures outcome == Verdict(Normalize(raw), old(usedWords), old(rootWord), isReal)
      ensures usedWords == if outcome == Accepted then [Normalize(raw)] + old(usedWords)
                           else old(usedWords)
      ensures rootWord == old(rootWord) && fileContents == old(fileContents)
      ensures old(Valid()) ==> Valid()
      ensures old(Consistent()) ==> Consistent()
      ensures SumLengths(usedWords) == old(SumLengths(usedWords))
                                       + if outcome == Accepted then |Normalize(raw)| else 0
    {
      var w := Normalize(raw);
      if |w| == 0 {
        return Ignored;
      }
      if |w| <= 2 {
        return Rejected(TooShort);
      }
      if !IsOriginal(w) {
        return Rejected(AlreadyUsed);
      }
      var possible := IsPossible(w);
      if !possible {
        return Rejected(NotPossible);
      }
      if !isReal(w) {
        return Rejected(NotReal);
      }
      if Valid() {
        PrependKeepsWellFormed(w, usedWords);
      }
      usedWords := [w] + usedWords;
      return Accepted;
    }

    /** The score: the number of characters over all accepted guesses. */
    method TotalScore() returns (score: int)
      ensures score == SumLengths(usedWords)
    {
      score := 0;
      for i := 0 to |usedWords|
        invariant score == SumLengths(usedWords[..i])
      {
        SumLengthsConcat(usedWords[..i], [usedWords[i]]);
        assert usedWords[..i + 1] == usedWords[..i] + [usedWords[i]];
        score := score + |usedWords[i]|;
      }
      assert usedWords[..|usedWords|] == usedWords;
    }
  }
}
