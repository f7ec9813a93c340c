# WordScramble in Dafny

WordScramble is a word game. A root word is picked at random from a bundled
list of start words. The player then submits guesses. A guess is accepted if
it has at least three characters, has not been accepted before, can be spelt
from the root word's letters (each letter used at most once), and is a real
word according to the platform spelling checker. The score is the total
number of characters of the accepted guesses.

This project models the decision-making part of the game screen,
`ContentView` in `WordScramble/ContentView.swift`, and proves properties of it.

- `text.dfy`, module `Text`: the string operations the game relies on.
  - Lower-casing and trimming of white space; together they make up `Normalize`.
  - Splitting a text into lines (`SplitLines`), with its inverse `JoinLines`.
  - `FirstIndex` and `RemoveAt`, which the spelling check uses.
  - `Count` of a character, shown equal to the multiset multiplicity.
- `rules.dfy`, module `Rules`: the rules on values.
  - `Spellable` is multiset inclusion. It has a per-letter count characterisation.
  - `Verdict` is the ordered guard pipeline. It returns `Ignored`, `Accepted` or `Rejected(reason)`; the reason stands in for the alert the screen shows.
  - The invariants of the accepted-guess list (`WellFormed`, `AllSpellable`).
  - The score `SumLengths`.
  - Worked rounds with the root word "silkworm".
- `game.dfy`, module `WordScramble`: class `ContentView`.
  - Its fields are `usedWords` (most recent guess first), `rootWord` and `fileContents`.
  - Its methods are `StartGame`, `NewGame`, `AddNewWord`, `IsOriginal`, `IsPossible` and `TotalScore`.
  - `IsPossible` and `TotalScore` are the source's loops, proved against `Spellable` and `SumLengths`.
  - `AddNewWord` is proved equal to `Verdict`. It is also proved to keep both invariants and to add exactly the new word's length to the score.

Choices made in the model:

- The dictionary is the parameter `isReal: string -> bool` of `AddNewWord`,
  so everything holds for any dictionary.
- `randomElement()` is a nondeterministic choice (`:|`). All that is promised is that the root word is one of the start words.
- Loading the bundled resource is the input `Resource`. It is `Missing`, `Unreadable`, or `Loaded(text)`.
- The two `fatalError` calls are preconditions: a missing resource for
  `StartGame` and an empty word list for `NewGame`.

Behaviour of the code worth knowing, modelled as written:

- Only the guess is lower-cased and trimmed. The root word is used exactly as
  stored (ContentView.swift lines 23, 34, 79). An upper-case letter in a start
  word is therefore never matched by a letter of a guess, since guesses are
  lower-cased. The root word is not normalised the way the guess is.
- `StartGame` does not clear `usedWords`. Only `NewGame` does. So after
  `StartGame` the accepted guesses need not be spellable from the new root.
  `Consistent()` is preserved by `AddNewWord` and re-established by `NewGame`, but not by `StartGame`.
- Splitting on line feeds yields an empty last line when the text ends in a
  line feed (`Text.TrailingLineFeedGivesEmptyLine`). The empty string can
  then be picked as the root word. With that root no guess of three or more characters is spellable.
- Guessing the root word itself is not forbidden (`Rules.SpellableRootAndEmpty`).

## Model

| member | source | states |
|---|---|---|
| Text.WhitespaceUnchangedByLower | WordScramble/ContentView.swift:46 | no white-space character is an upper-case letter, so lower-casing leaves it as it is |
| Text.Lowercased | WordScramble/ContentView.swift:46 | the result has the input's length and no upper-case letter; each character that is not an upper-case ASCII letter is kept, each upper-case letter becomes the lower-case letter at the same alphabet position; so white space stays where it was and an input without upper-case letters is returned unchanged |
| Text.LeadingWhitespace | WordScramble/ContentView.swift:46 | the count is at most the length, every character before it is white space, and the character at it (if any) is not |
| Text.TrailingWhitespace | WordScramble/ContentView.swift:46 | the count is at most the length, every one of the last that many characters is white space, and the one before them (if any) is not |
| Text.Trimmed | WordScramble/ContentView.swift:46 | the result neither starts nor ends with white space, is the infix that begins after the leading white space, and only white space follows it |
| Text.TrimmedOfTrimmed | WordScramble/ContentView.swift:46 | trimming leaves alone a string that starts and ends with something other than white space |
| Text.TrimmedIgnoresPadding | WordScramble/ContentView.swift:46 | adding white space on either side of a string does not change its trimmed form |
| Text.Normalize | WordScramble/ContentView.swift:46 | the normalised guess has no upper-case letters, does not start or end with white space, and is no longer than the input; the lemmas below pin it down completely |
| Text.NormalizeIsLoweredCore | WordScramble/ContentView.swift:46 | the normalised guess is the lower-cased run of characters that starts right after the input's leading white space and is followed only by white space |
| Text.NormalizeOfPadded | WordScramble/ContentView.swift:46 | white space added before or after the input does not change its normal form |
| Text.NormalizeIgnoresCase | WordScramble/ContentView.swift:46 | two inputs that agree once lower-cased have the same normal form |
| Text.NormalFormIsFixedPoint | WordScramble/ContentView.swift:46 | a string is left alone by normalisation exactly when it has no upper-case letter and does not start or end with white space |
| Text.NormalizeEmptyIff | WordScramble/ContentView.swift:46-47 | the normalised guess is empty exactly when the input is all white space (both directions) |
| Text.NormalizeIdempotent | WordScramble/ContentView.swift:46 | normalising twice is normalising once, so stored guesses are in normal form |
| Text.CountIsMultiplicity | WordScramble/ContentView.swift:78-90 | counting a character in a string gives its multiplicity in the string's multiset |
| Text.SplitLines | WordScramble/ContentView.swift:21 | splitting on line feeds gives one more piece than there are line feeds, and no piece holds a line feed |
| Text.JoinSplitLines | WordScramble/ContentView.swift:21 | joining the pieces with line feeds gives the text back |
| Text.SplitLinesJoin | WordScramble/ContentView.swift:21 | a non-empty list of lines without line feeds is recovered by joining and then splitting |
| Text.TrailingLineFeedGivesEmptyLine | WordScramble/ContentView.swift:21-23 | a text ending in a line feed yields an empty last start word |
| Text.FirstIndex | WordScramble/ContentView.swift:82 | no position exactly when the character is absent; otherwise the position holds the character and no earlier position does |
| Text.RemoveAt | WordScramble/ContentView.swift:83 | removing one position shortens the string by one and takes exactly that character out of its multiset |
| Rules.SpellableIffCounts | WordScramble/ContentView.swift:78-90 | a word is spellable from the root exactly when no character occurs in it more often than in the root |
| Rules.SpellableRootAndEmpty | WordScramble/ContentView.swift:78-90 | the root word itself and the empty word are spellable |
| Rules.SpellablePrefix | WordScramble/ContentView.swift:81-86 | every prefix of a spellable word is spellable |
| Rules.MissingLetterNotSpellable | WordScramble/ContentView.swift:82-85 | a word using a letter the root lacks is not spellable |
| Rules.Verdict | WordScramble/ContentView.swift:47-71 | an empty guess, and only an empty one, is ignored without a message; an accepted guess has at least three characters, is new, is spellable from the root and is in the dictionary; every rejection other than "too short" concerns a guess of at least three characters |
| Rules.VerdictIsFirstFailingGuard | WordScramble/ContentView.swift:47-71 | the outcome is `Ignored` iff the guess is empty, `TooShort` iff it has 1 or 2 characters, `AlreadyUsed` iff it is longer and used, `NotPossible` iff it is also new and not spellable, `NotReal` iff it is also spellable but not in the dictionary, and `Accepted` iff all four guards pass |
| Rules.DictionaryConsultedLast | WordScramble/ContentView.swift:59-67 | unless the guess reached the dictionary guard, any other dictionary gives the same outcome |
| Rules.DictionaryAskedOnlyAboutGuess | WordScramble/ContentView.swift:64 | the outcome depends on the dictionary only through its answer for the guess itself |
| Rules.PrependKeepsWellFormed | WordScramble/ContentView.swift:49-57 | putting a new normalised word of at least three characters in front of a well-formed list keeps it well formed: lengths at least 3, normal form, no duplicates |
| Rules.ResubmissionIsAlreadyUsed | WordScramble/ContentView.swift:54-57 | once a normalised guess is accepted, submitting it again is rejected as already used, whatever the dictionary says; the guards judge the normal form, and `Text.NormalizeIgnoresCase` and `Text.NormalizeOfPadded` show that a different casing or extra surrounding white space gives the same normal form, so such resubmissions are rejected too |
| Rules.SumLengthsConcat | WordScramble/ContentView.swift:106-112 | the score of two lists together is the sum of their scores |
| Rules.SumLengthsAtLeastThreePerWord | WordScramble/ContentView.swift:106-112 | when every word has at least three characters, the score is at least three per word |
| Rules.SilkwormAcceptsSilk | WordScramble/ContentView.swift:45-71 | with root "silkworm", "silk" is accepted if the dictionary knows it, scores 4, and is then rejected as already used |
| Rules.SilkwormRejectsOw | WordScramble/ContentView.swift:49-52 | with root "silkworm", "ow" is too short |
| Rules.SilkwormRejectsSilkworms | WordScramble/ContentView.swift:59-62 | with root "silkworm", "silkworms" is not possible, because it needs a second 's' |
| Rules.SilkwormRejectsZzqx | WordScramble/ContentView.swift:59-67 | with root "silkworm", "zzqx" is rejected as not possible before the dictionary is asked |
| WordScramble.ContentView.constructor | WordScramble/ContentView.swift:9-12 | a fresh screen has no accepted guesses, an empty root word and no start words |
| WordScramble.ContentView.StartGame | WordScramble/ContentView.swift:18-30 | a loaded text becomes the start words and the root word is one of them; an unreadable resource changes nothing; the accepted guesses are never cleared |
| WordScramble.ContentView.NewGame | WordScramble/ContentView.swift:32-39 | with start words present, the root word becomes one of them and the accepted guesses are cleared |
| WordScramble.ContentView.IsOriginal | WordScramble/ContentView.swift:74-76 | true exactly when no accepted guess equals the word |
| WordScramble.ContentView.IsPossible | WordScramble/ContentView.swift:78-90 | the letter-removal loop answers true exactly when the word's multiset is contained in the root word's |
| WordScramble.ContentView.AddNewWord | WordScramble/ContentView.swift:45-72 | the outcome is the guard pipeline's verdict on the normalised guess; an accepted guess goes in front, anything else leaves the guesses unchanged; root and start words never change; well-formedness and spellability of the guesses are preserved; the score grows by the new word's length exactly when it is accepted |
| WordScramble.ContentView.TotalScore | WordScramble/ContentView.swift:106-112 | the accumulating loop returns the sum of the lengths of the accepted guesses |

## Left out

- The SwiftUI `body`, `ContentView_Previews` and `withAnimation` are presentation. `withAnimation` only wraps the insertion.
- The alert state `errorTitle`, `errorMessage`, `showingError` and the method `wordError` are presentation too. The titles and messages are not modelled; the rejection reason in `Outcome` replaces them.
- The `newWord` text field, and clearing it after submission, are presentation.
- `getWord` is never called, so it is not modelled.
- Finding and reading the bundled start.txt (`Bundle.main.url`, `String(contentsOf:)`) is I/O. The `Resource` input stands in for its three results.
- `isReal` calls the platform spelling checker (`UITextChecker`, `NSRange`, language "en"). This is a foreign service, so it is the uninterpreted parameter `isReal`.
- `randomElement()` is random. It is modelled as a nondeterministic choice, so the uniform distribution is not modelled.
- Unicode details are not modelled:
  - Swift's `lowercased()` is modelled for ASCII letters only.
  - White space is a fixed set: Unicode general category Z* (space, line and paragraph separators), plus U+0009 to U+000D and U+0085.
  - Strings are sequences of Unicode scalar values. Swift's `String` is a sequence of grapheme clusters.
  - Lengths therefore count scalar values rather than grapheme clusters.
  - The loop over the letters of a guess (ContentView.swift line 81) iterates grapheme clusters in Swift; the model iterates scalar values.
  - Swift compares strings and characters by canonical equivalence, in `contains` (line 75) and `firstIndex` (line 82). The model compares scalar values exactly.
- TotalScore: does not model Swift's trap on 64-bit `Int` overflow of the score, because that would need more than 2^63 accepted characters.
- Concurrency and SwiftUI's `@State` update scheduling are not modelled; every operation is one atomic step.
