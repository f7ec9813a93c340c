/** String operations the game relies on: lower-casing, trimming of
    white space, splitting a text into lines, finding and removing a
    character. Strings are sequences of Unicode scalar values. */
module Text {

  datatype Option<T> = None | Some(value: T)

  /** The characters the game trims from both ends of a guess: Unicode
      general category Z* (space, line and paragraph separators) plus the
      controls U+0009 to U+000D and U+0085. None of them is an upper-case
      letter, so lower-casing never touches white space. */
  predicate IsWhitespace(c: char) {
    || ('\t' <= c <= '\r') || c == ' ' || c == '\U{85}' || c == '\U{A0}' || c == '\U{1680}'
    || ('\U{2000}' <= c <= '\U{200A}')
    || c == '\U{2028}' || c == '\U{2029}' || c == '\U{202F}' || c == '\U{205F}' || c == '\U{3000}'
  }

  predicate IsUpper(c: char) {
    'A' <= c <= 'Z'
  }

  function Lower(c: char): char {
    if IsUpper(c) then (c as int - 'A' as int + 'a' as int) as char else c
  }

  /** No white-space character is an upper-case letter, so lower-casing
      leaves every one of them as it is. */
  lemma WhitespaceUnchangedByLower(c: char)
    requires IsWhitespace(c)
    ensures !IsUpper(c) && Lower(c) == c
  {
  }

  /** The guess with every upper-case letter replaced by its lower-case form. */
  function Lowercased(s: string): (r: string)
    ensures |r| == |s|
    ensures forall i :: 0 <= i < |r| ==> !IsUpper(r[i])
    ensures forall i :: 0 <= i < |r| ==> (IsWhitespace(r[i]) <==> IsWhitespace(s[i]))
    ensures (forall i :: 0 <= i < |s| ==> !IsUpper(s[i])) ==> r == s
    ensures forall i :: 0 <= i < |s| && !IsUpper(s[i]) ==> r[i] == s[i]
    ensures forall i :: 0 <= i < |s| && IsUpper(s[i]) ==>
              'a' <= r[i] <= 'z' && r[i] as int - 'a' as int == s[i] as int - 'A' as int
  {
    seq(|s|, i requires 0 <= i < |s| => Lower(s[i]))
  }

  /** The number of white-space characters `s` starts with. */
  function LeadingWhitespace(s: string): (n: nat)
    ensures n <= |s|
    ensures forall k :: 0 <= k < n ==> IsWhitespace(s[k])
    ensures n < |s| ==> !IsWhitespace(s[n])
  {
    if s != [] && IsWhitespace(s[0]) then 1 + LeadingWhitespace(s[1..]) else 0
  }

  /** The number of white-space characters `s` ends with. */
  function TrailingWhitespace(s: string): (n: nat)
    ensures n <= |s|
    ensures forall k :: |s| - n <= k < |s| ==> IsWhitespace(s[k])
    ensures n < |s| ==> !IsWhitespace(s[|s| - n - 1])
  {
    if s != [] && IsWhitespace(s[|s| - 1]) then 1 + TrailingWhitespace(s[..|s| - 1]) else 0
  }

  /** The largest infix of `s` that neither starts nor ends with white
      space: it begins right after the leading white space, and everything
      after it is white space too. */
  function Trimmed(s: string): (r: string)
    ensures r == [] || (!IsWhitespace(r[0]) && !IsWhitespace(r[|r| - 1]))
    ensures LeadingWhitespace(s) + |r| <= |s|
    ensures r == s[LeadingWhitespace(s)..LeadingWhitespace(s) + |r|]
    ensures forall k :: LeadingWhitespace(s) + |r| <= k < |s| ==> IsWhitespace(s[k])
  {
    var i := LeadingWhitespace(s);
    if i == |s| then []
    else
      var j := |s| - TrailingWhitespace(s);
      assert !IsWhitespace(s[i]);
      s[i..j]
  }

  /** A string that starts and ends with something other than white space
      is left alone by trimming. */
  lemma TrimmedOfTrimmed(s: string)
    requires s == [] || (!IsWhitespace(s[0]) && !IsWhitespace(s[|s| - 1]))
    ensures Trimmed(s) == s
  {
  }

  /** How a guess is normalised before it is judged: lower-cased first,
      then trimmed. */
  function Normalize(raw: string): (w: string)
    ensures forall i :: 0 <= i < |w| ==> !IsUpper(w[i])
    ensures w == [] || (!IsWhitespace(w[0]) && !IsWhitespace(w[|w| - 1]))
    ensures |w| <= |raw|
  {
    var l := Lowercased(raw);
    var w := Trimmed(l);
    var i := LeadingWhitespace(l);
    assert forall k :: 0 <= k < |w| ==> w[k] == l[i + k];
    w
  }

  /** The shape of a normal form: no upper-case letter, and neither
      starting nor ending with white space. */
  predicate IsNormal(w: string) {
    && (forall i :: 0 <= i < |w| ==> !IsUpper(w[i]))
    && (w == [] || (!IsWhitespace(w[0]) && !IsWhitespace(w[|w| - 1])))
  }

  /** The normal forms are exactly the strings normalisation leaves alone. */
  lemma NormalFormIsFixedPoint(w: string)
    ensures IsNormal(w) <==> Normalize(w) == w
  {
    if IsNormal(w) {
      assert Lowercased(w) == w;
      TrimmedOfTrimmed(w);
    }
  }

  /** What the normal form is: the part of the input that starts after its
      leading white space and is followed only by white space, with each
      character lower-cased. Together with the shape stated by `Normalize`
      this determines the normal form completely. */
  lemma NormalizeIsLoweredCore(raw: string)
    ensures LeadingWhitespace(raw) + |Normalize(raw)| <= |raw|
    ensures forall k :: 0 <= k < |Normalize(raw)| ==>
              Normalize(raw)[k] == Lower(raw[LeadingWhitespace(raw) + k])
    ensures forall k :: LeadingWhitespace(raw) + |Normalize(raw)| <= k < |raw| ==> IsWhitespace(raw[k])
  {
    var l := Lowercased(raw);
    var i := LeadingWhitespace(raw);
    LeadingWhitespaceOfLowercased(raw);
    var w := Normalize(raw);
    assert w == Trimmed(l);
    forall k | 0 <= k < |w| ensures w[k] == Lower(raw[i + k]) {
      TrimmedAt(l, k);
      LowercasedAt(raw, i + k);
    }
    forall k | i + |w| <= k < |raw| ensures IsWhitespace(raw[k]) {
      assert IsWhitespace(l[k]);
    }
  }

  /** A character of the trimmed form is the character that many places
      after the leading white space. */
  lemma TrimmedAt(s: string, k: nat)
    requires k < |Trimmed(s)|
    ensures LeadingWhitespace(s) + k < |s| && Trimmed(s)[k] == s[LeadingWhitespace(s) + k]
  {
  }

  lemma LowercasedAt(s: string, j: nat)
    requires j < |s|
    ensures Lowercased(s)[j] == Lower(s[j])
  {
  }

  /** Lower-casing keeps white space where it is, so it does not move the
      end of the leading white space. */
  lemma LeadingWhitespaceOfLowercased(raw: string)
    ensures LeadingWhitespace(Lowercased(raw)) == LeadingWhitespace(raw)
  {
    var l := Lowercased(raw);
    LeadingWhitespaceUnique(l, LeadingWhitespace(raw));
  }

  /** The end of the leading white space is the one position before which
      everything is white space and at which something else stands. */
  lemma LeadingWhitespaceUnique(s: string, n: nat)
    requires n <= |s|
    requires forall k :: 0 <= k < n ==> IsWhitespace(s[k])
    requires n < |s| ==> !IsWhitespace(s[n])
    ensures LeadingWhitespace(s) == n
  {
  }

  /** Trimming `a + r + b`, where `a` and `b` are white space and `r` does
      not start or end with white space, gives `r`. */
  lemma TrimmedOfPadded(a: string, r: string, b: string)
    requires AllWhitespace(a) && AllWhitespace(b)
    requires r == [] || (!IsWhitespace(r[0]) && !IsWhitespace(r[|r| - 1]))
    ensures Trimmed(a + r + b) == r
  {
    var s := a + r + b;
    var t := Trimmed(s);
    if r == [] {
      assert forall k :: 0 <= k < |s| ==> IsWhitespace(s[k]) by {
        forall k | 0 <= k < |s| ensures IsWhitespace(s[k]) {
          if k < |a| { assert s[k] == a[k]; } else { assert s[k] == b[k - |a|]; }
        }
      }
    } else {
      assert forall k :: 0 <= k < |a| ==> s[k] == a[k];
      assert s[|a|] == r[0];
      LeadingWhitespaceUnique(s, |a|);
      assert forall k :: |a| + |r| <= k < |s| ==> s[k] == b[k - |a| - |r|];
      assert t == s[|a|..|a| + |r|];
      assert s[|a|..|a| + |r|] == r;
    }
  }

  /** Lower-casing works character by character, so it distributes over
      concatenation. */
  lemma LowercasedOfConcat(a: string, b: string)
    ensures Lowercased(a + b) == Lowercased(a) + Lowercased(b)
  {
  }

  /** Every character of `s` is white space. */
  predicate AllWhitespace(s: string) {
    forall k :: 0 <= k < |s| ==> IsWhitespace(s[k])
  }

  /** A string that is all white space stays so when lower-cased. */
  lemma LowercasedOfWhitespace(s: string)
    requires AllWhitespace(s)
    ensures AllWhitespace(Lowercased(s))
  {
  }

  /** Concatenating two all-white-space strings gives one. */
  lemma WhitespaceConcat(a: string, b: string)
    requires AllWhitespace(a) && AllWhitespace(b)
    ensures AllWhitespace(a + b)
  {
    forall k | 0 <= k < |a + b| ensures IsWhitespace((a + b)[k]) {
      if k < |a| { assert (a + b)[k] == a[k]; } else { assert (a + b)[k] == b[k - |a|]; }
    }
  }

  /** Any string is its prefix, infix and suffix put together. */
  lemma SplitInThree(s: string, i: nat, j: nat)
    requires i <= j <= |s|
    ensures s == s[..i] + s[i..j] + s[j..]
  {
    assert s[..j] == s[..i] + s[i..j];
    assert s == s[..j] + s[j..];
  }

  /** Any string is its leading white space, then its trimmed form, then
      white space. */
  lemma TrimmedSplits(s: string)
    ensures LeadingWhitespace(s) + |Trimmed(s)| <= |s|
    ensures s == s[..LeadingWhitespace(s)] + Trimmed(s) + s[LeadingWhitespace(s) + |Trimmed(s)|..]
    ensures AllWhitespace(s[..LeadingWhitespace(s)])
    ensures AllWhitespace(s[LeadingWhitespace(s) + |Trimmed(s)|..])
  {
    var i, r := LeadingWhitespace(s), Trimmed(s);
    SplitInThree(s, i, i + |r|);
    WhitespacePrefix(s, i);
    WhitespaceSuffix(s, i + |r|);
  }

  lemma WhitespacePrefix(s: string, n: nat)
    requires n <= |s| && forall k :: 0 <= k < n ==> IsWhitespace(s[k])
    ensures AllWhitespace(s[..n])
  {
    forall k | 0 <= k < n ensures IsWhitespace(s[..n][k]) { assert s[..n][k] == s[k]; }
  }

  lemma WhitespaceSuffix(s: string, n: nat)
    requires n <= |s| && forall k :: n <= k < |s| ==> IsWhitespace(s[k])
    ensures AllWhitespace(s[n..])
  {
    forall k | 0 <= k < |s| - n ensures IsWhitespace(s[n..][k]) { assert s[n..][k] == s[n + k]; }
  }

  lemma Regroup(x: string, a: string, w: string, b: string, y: string)
    ensures x + (a + w + b) + y == (x + a) + w + (b + y)
  {
  }

  /** Trimming does not see extra white space on either side. */
  lemma TrimmedIgnoresPadding(pre: string, s: string, post: string)
    requires AllWhitespace(pre) && AllWhitespace(post)
    ensures Trimmed(pre + s + post) == Trimmed(s)
  {
    var i, r := LeadingWhitespace(s), Trimmed(s);
    var a, b := s[..i], s[i + |r|..];
    TrimmedSplits(s);
    Regroup(pre, a, r, b, post);
    WhitespaceConcat(pre, a);
    WhitespaceConcat(b, post);
    TrimmedOfPadded(pre + a, r, b + post);
  }

  /** White space around a guess does not matter: padding it on either
      side with white space gives the same normal form. */
  lemma NormalizeOfPadded(pre: string, raw: string, post: string)
    requires AllWhitespace(pre) && AllWhitespace(post)
    ensures Normalize(pre + raw + post) == Normalize(raw)
  {
    LowercasedOfConcat(pre + raw, post);
    LowercasedOfConcat(pre, raw);
    LowercasedOfWhitespace(pre);
    LowercasedOfWhitespace(post);
    TrimmedIgnoresPadding(Lowercased(pre), Lowercased(raw), Lowercased(post));
  }

  /** Case does not matter: two inputs that agree once lower-cased have the
      same normal form. */
  lemma NormalizeIgnoresCase(raw: string, other: string)
    requires Lowercased(other) == Lowercased(raw)
    ensures Normalize(other) == Normalize(raw)
  {
  }

  /** Normalisation is empty exactly when the input is all white space. */
  lemma NormalizeEmptyIff(raw: string)
    ensures Normalize(raw) == [] <==> forall k :: 0 <= k < |raw| ==> IsWhitespace(raw[k])
  {
  }

  /** Normalising a normalised word changes nothing, so the words the game
      stores are their own normal form. */
  lemma NormalizeIdempotent(raw: string)
    ensures Normalize(Normalize(raw)) == Normalize(raw)
  {
  }

  /** The number of occurrences of `c` in `s`. */
  function Count(s: string, c: char): nat {
    if s == [] then 0 else (if s[0] == c then 1 else 0) + Count(s[1..], c)
  }

  lemma {:induction false} CountIsMultiplicity(s: string, c: char)
    ensures Count(s, c) == multiset(s)[c]
  {
    if s != [] {
      assert s == [s[0]] + s[1..];
      CountIsMultiplicity(s[1..], c);
    }
  }

  /** The pieces of `s` between line feeds: one more piece than there are
      line feeds, none of them holding a line feed. */
  function SplitLines(s: string): (r: seq<string>)
    ensures |r| == Count(s, '\n') + 1
    ensures forall i :: 0 <= i < |r| ==> '\n' !in r[i]
  {
    if s == [] then [""]
    else
      var rest := SplitLines(s[1..]);
      if s[0] == '\n' then [""] + rest
      else [[s[0]] + rest[0]] + rest[1..]
  }

  /** The lines glued back together with line feeds between them. */
  function JoinLines(ls: seq<string>): string
    requires |ls| >= 1
  {
    if |ls| == 1 then ls[0] else ls[0] + "\n" + JoinLines(ls[1..])
  }

  /** Splitting loses nothing: joining the pieces gives the text back. */
  lemma {:induction false} JoinSplitLines(s: string)
    ensures JoinLines(SplitLines(s)) == s
  {
    if s != [] {
      var rest := SplitLines(s[1..]);
      JoinSplitLines(s[1..]);
      if s[0] == '\n' {
        assert SplitLines(s)[1..] == rest;
      } else if |rest| == 1 {
        assert JoinLines(SplitLines(s)) == [s[0]] + rest[0];
      } else {
        var r := SplitLines(s);
        assert r[1..] == rest[1..];
        assert JoinLines(r) == [s[0]] + rest[0] + "\n" + JoinLines(rest[1..]);
        assert JoinLines(rest) == rest[0] + "\n" + JoinLines(rest[1..]);
      }
    }
  }

  lemma {:induction false} SplitLinesPrefix(a: string, b: string)
    requires '\n' !in a
    ensures SplitLines(a + b) == [a + SplitLines(b)[0]] + SplitLines(b)[1..]
  {
    if a != [] {
      assert (a + b)[1..] == a[1..] + b;
      assert '\n' !in a[1..] by { assert forall k :: 0 <= k < |a[1..]| ==> a[1..][k] == a[k + 1]; }
      SplitLinesPrefix(a[1..], b);
      assert [a[0]] + (a[1..] + SplitLines(b)[0]) == a + SplitLines(b)[0];
    } else {
      var sb := SplitLines(b);
      assert a + b == b;
      assert a + sb[0] == sb[0];
      assert sb == [sb[0]] + sb[1..];
    }
  }

  /** Lines without line feeds survive a join followed by a split. */
  lemma {:induction false} SplitLinesJoin(ls: seq<string>)
    requires |ls| >= 1
    requires forall i :: 0 <= i < |ls| ==> '\n' !in ls[i]
    ensures SplitLines(JoinLines(ls)) == ls
  {
    if |ls| == 1 {
      SplitLinesPrefix(ls[0], "");
      assert ls[0] + "" == ls[0];
    } else {
      var tail := JoinLines(ls[1..]);
      SplitLinesJoin(ls[1..]);
      assert ls[0] + "\n" + tail == ls[0] + ("\n" + tail);
      SplitLinesPrefix(ls[0], "\n" + tail);
      assert ("\n" + tail)[1..] == tail;
      assert ls[0] + "" == ls[0];
      assert ls == [ls[0]] + ls[1..];
    }
  }

  /** A text that ends in a line feed splits into a list whose last line
      is empty. */
  lemma {:induction false} TrailingLineFeedGivesEmptyLine(s: string)
    requires s != [] && s[|s| - 1] == '\n'
    ensures SplitLines(s)[|SplitLines(s)| - 1] == ""
  {
    if |s| > 1 {
      assert s[1..][|s[1..]| - 1] == '\n';
      TrailingLineFeedGivesEmptyLine(s[1..]);
    }
  }

  /** The position of the first occurrence of `c` in `s`, if any. */
  function FirstIndex(s: string, c: char): (r: Option<nat>)
    ensures r.None? <==> c !in s
    ensures r.Some? ==> r.value < |s| && s[r.value] == c && c !in s[..r.value]
  {
    if s == [] then None
    else if s[0] == c then Some(0)
    else match FirstIndex(s[1..], c)
      case None => None
      case Some(k) =>
        assert s[..k + 1] == [s[0]] + s[1..][..k];
        Some(k + 1)
  }

  /** `s` with the character at position `i` taken out: one character
      shorter, and as a bag it lost exactly that character. */
  function RemoveAt(s: string, i: nat): (r: string)
    requires i < |s|
    ensures |r| == |s| - 1
    ensures multiset(r) == multiset(s) - multiset{s[i]}
  {
    assert s == s[..i] + [s[i]] + s[i + 1..];
    s[..i] + s[i + 1..]
  }
}
