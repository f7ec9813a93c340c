/** The rules a guess is judged by, stated on values: which guard rejects
    it, what can be spelt from the root word, and what the score is. */
module Rules {
  import opened Text

  /** Why a guess was turned down, one reason per guard. */
  datatype Rejection = TooShort | AlreadyUsed | NotPossible | NotReal

  /** What submitting a guess comes to: an empty guess is ignored without
      a message, any other is accepted or rejected for one reason. */
  datatype Outcome = Ignored | Accepted | Rejected(reason: Rejection)

  /** `w` can be spelt from `root` using each letter of `root` at most
      once: as bags of characters, `w` is contained in `root`. */
  predicate Spellable(w: string, root: string) {
    multiset(w) <= multiset(root)
  }

  /** The same rule letter by letter: no character occurs in `w` more often
      than in `root`. */
  lemma {:induction false} SpellableIffCounts(w: string, root: string)
    ensures Spellable(w, root) <==> forall c :: Count(w, c) <= Count(root, c)
  {
    if Spellable(w, root) {
      forall c ensures Count(w, c) <= Count(root, c) {
        CountIsMultiplicity(w, c);
        CountIsMultiplicity(root, c);
      }
    } else {
      var c :| multiset(w)[c] > multiset(root)[c];
      CountIsMultiplicity(w, c);
      CountIsMultiplicity(root, c);
    }
  }

  /** The root word itself and the empty word can always be spelt. */
  lemma SpellableRootAndEmpty(root: string)
    ensures Spellable(root, root)
    ensures Spellable("", root)
  {
  }

  /** Every prefix of a spellable word is spellable, so giving up at the
      first letter that cannot be taken from the root loses nothing. */
  lemma SpellablePrefix(w: string, root: string, i: nat)
    requires i <= |w|
    requires Spellable(w, root)
    ensures Spellable(w[..i], root)
  {
    assert w == w[..i] + w[i..];
  }

  /** A word that uses a letter the root does not have cannot be spelt. */
  lemma MissingLetterNotSpellable(w: string, root: string, c: char)
    requires c in w && c !in root
    ensures !Spellable(w, root)
  {
    assert c in multiset(w) && c !in multiset(root);
  }

  /** The guards of one submission of the (already normalised) guess `w`,
      applied in order against the accepted words `used`, the root word
      `root` and the dictionary `isReal`. */
  function Verdict(w: string, used: seq<string>, root: string, isReal: string -> bool): (r: Outcome)
    ensures r == Ignored <==> w == []
    ensures r == Accepted ==> |w| >= 3 && w !in used && Spellable(w, root) && isReal(w)
    ensures r.Rejected? && r.reason != TooShort ==> |w| >= 3
  {
    if |w| == 0 then Ignored
    else if |w| <= 2 then Rejected(TooShort)
    else if w in used then Rejected(AlreadyUsed)
    else if !Spellable(w, root) then Rejected(NotPossible)
    else if !isReal(w) then Rejected(NotReal)
    else Accepted
  }

  /** Each outcome exactly when its guard is the first one to fail, and
      acceptance exactly when every guard passes. */
  lemma VerdictIsFirstFailingGuard(w: string, used: seq<string>, root: string, isReal: string -> bool)
    ensures Verdict(w, used, root, isReal) == Ignored <==> w == []
    ensures Verdict(w, used, root, isReal) == Rejected(TooShort) <==> 1 <= |w| <= 2
    ensures Verdict(w, used, root, isReal) == Rejected(AlreadyUsed) <==> |w| >= 3 && w in used
    ensures Verdict(w, used, root, isReal) == Rejected(NotPossible) <==>
              |w| >= 3 && w !in used && !Spellable(w, root)
    ensures Verdict(w, used, root, isReal) == Rejected(NotReal) <==>
              |w| >= 3 && w !in used && Spellable(w, root) && !isReal(w)
    ensures Verdict(w, used, root, isReal) == Accepted <==>
              |w| >= 3 && w !in used && Spellable(w, root) && isReal(w)
  {
  }

  /** The dictionary is consulted last: unless a guess got as far as the
      dictionary guard, any other dictionary gives the same outcome. */
  lemma DictionaryConsultedLast(w: string, used: seq<string>, root: string, isReal: string -> bool,
                                other: string -> bool)
    requires Verdict(w, used, root, isReal) !in {Accepted, Rejected(NotReal)}
    ensures Verdict(w, used, root, other) == Verdict(w, used, root, isReal)
  {
  }

  /** The guard list is a function of the guess, the accepted words, the
      root, and of the dictionary only at `w` itself. */
  lemma DictionaryAskedOnlyAboutGuess(w: string, used: seq<string>, root: string,
                                      isReal: string -> bool, other: string -> bool)
    requires isReal(w) == other(w)
    ensures Verdict(w, used, root, other) == Verdict(w, used, root, isReal)
  {
  }

  /** What holds of the accepted words at every moment: each has at least
      three characters, is in normal form, and none occurs twice. */
  predicate WellFormed(used: seq<string>) {
    && (forall i :: 0 <= i < |used| ==> |used[i]| >= 3 && IsNormal(used[i]))
    && (forall i, j :: 0 <= i < j < |used| ==> used[i] != used[j])
  }

  /** Every accepted word can be spelt from `root`. */
  predicate AllSpellable(used: seq<string>, root: string) {
    forall i :: 0 <= i < |used| ==> Spellable(used[i], root)
  }

  /** Putting a normalised word of at least three characters that is not
      yet among the accepted words at their front keeps them well formed;
      these are exactly the checks an accepted guess has passed. */
  lemma PrependKeepsWellFormed(w: string, used: seq<string>)
    requires WellFormed(used)
    requires IsNormal(w) && |w| >= 3 && w !in used
    ensures WellFormed([w] + used)
  {
    var used' := [w] + used;
    forall i | 0 <= i < |used'| ensures |used'[i]| >= 3 && IsNormal(used'[i]) {
      if i > 0 {
        assert used'[i] == used[i - 1];
      }
    }
    forall i, j | 0 <= i < j < |used'| ensures used'[i] != used'[j] {
      if i == 0 {
        assert used'[j] == used[j - 1];
      } else {
        assert used'[i] == used[i - 1] && used'[j] == used[j - 1];
      }
    }
  }

  /** Once the normalised guess `w` is accepted, submitting it again is
      rejected as already used, whatever the dictionary says by then; since
      the guards judge the normal form, this covers every input that
      normalises to `w`, in any casing and with any surrounding white space. */
  lemma ResubmissionIsAlreadyUsed(w: string, used: seq<string>, root: string,
                                  isReal: string -> bool, later: string -> bool)
    requires Verdict(w, used, root, isReal) == Accepted
    ensures Verdict(w, [w] + used, root, later) == Rejected(AlreadyUsed)
  {
    assert ([w] + used)[0] == w;
  }

  /** The score: the total number of characters of the accepted words. */
  function SumLengths(words: seq<string>): nat {
    if words == [] then 0 else |words[0]| + SumLengths(words[1..])
  }

  lemma {:induction false} SumLengthsConcat(a: seq<string>, b: seq<string>)
    ensures SumLengths(a + b) == SumLengths(a) + SumLengths(b)
  {
    if a != [] {
      assert (a + b)[1..] == a[1..] + b;
      SumLengthsConcat(a[1..], b);
    } else {
      assert a + b == b;
    }
  }

  /** When every word has at least three characters, the score is at
      least three points per word. */
  lemma {:induction false} SumLengthsAtLeastThreePerWord(words: seq<string>)
    requires forall i :: 0 <= i < |words| ==> |words[i]| >= 3
    ensures SumLengths(words) >= 3 * |words|
  {
    if words != [] {
      assert forall i :: 0 <= i < |words[1..]| ==> words[1..][i] == words[i + 1];
      SumLengthsAtLeastThreePerWord(words[1..]);
    }
  }

  /** Worked rounds with the root word "silkworm": "silk" is accepted
      and scores four points, and is then rejected as already used. */
  lemma SilkwormAcceptsSilk(isReal: string -> bool)
    requires isReal("silk")
    ensures Verdict("silk", [], "silkworm", isReal) == Accepted
    ensures SumLengths(["silk"]) == 4
    ensures Verdict("silk", ["silk"], "silkworm", isReal) == Rejected(AlreadyUsed)
  {
  }

  /** "ow" is too short, whatever the dictionary says. */
  lemma SilkwormRejectsOw(isReal: string -> bool)
    ensures Verdict("ow", ["silk"], "silkworm", isReal) == Rejected(TooShort)
  {
  }

  /** "silkworms" needs a second 's', which the root does not have. */
  lemma SilkwormRejectsSilkworms(isReal: string -> bool)
    ensures Verdict("silkworms", ["silk"], "silkworm", isReal) == Rejected(NotPossible)
  {
  }

  /** "zzqx" fails on spelling before the dictionary is asked. */
  lemma SilkwormRejectsZzqx(isReal: string -> bool)
    ensures Verdict("zzqx", ["silk"], "silkworm", isReal) == Rejected(NotPossible)
  {
    assert "zzqx"[0] == 'z';
    MissingLetterNotSpellable("zzqx", "silkworm", 'z');
  }
}
