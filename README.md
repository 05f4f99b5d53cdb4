# Vocabulary mailer: word pick, synonym list and message text

A Dafny model of the logic of `vocab_mailer.py`, a script that emails a
"word of the day" with some of its WordNet synonyms:

- `get_word_and_synonyms` picks one of seven fixed common words at random,
  collects the lemma names of every WordNet synset of that word, replaces
  each underscore with a space, removes duplicates, sorts, and keeps the
  first five (module `Vocab`, file `vocab.dfy`).
- `send_email` builds the subject `Word of the Day: <word>` and a plain-text
  body whose first line repeats the subject and whose second line lists the
  synonyms joined by `", "`; the message goes from the configured address to
  that same address (module `Mail`, file `mail.dfy`).

Python's `sorted` orders strings lexicographically by code point, with a
proper prefix first. Dafny's `<` on sequences means "proper prefix", so
`LexOrder.LexLess` (file `lex_order.dfy`) defines Python's order; it is proved
equal to the "first differing position" definition and to be a strict total
order. `str.replace`, `str.join` and `str.split` are in module `Text`
(`text.dfy`); `Split` is there only to read the body back line by line.

`sorted(set(xs))` is modelled as insertion, skipping duplicates, into a
strictly ascending list (`Vocab.SortedSet`). It is proved to be the one
strictly ascending list with the same elements as `xs`, so it depends only on
which names occur, as a Python `set` does.

The parts that depend on the outside world are parameters:

- The WordNet lookup is a function from a word to its synsets, each synset
  given as its list of lemma names, in WordNet's order.
- `random.choice` is an index `choice < 7` into the word list.
- The sender address is an opaque string.

The script keeps no log of words already sent and never resets one; it
fetches nothing from remote word, definition or synonym services, has no
definition fallback and truncates no text. It draws from a fixed list and
keeps five synonyms, and the model does the same.

## Model

| member | source | states |
|---|---|---|
| `Vocab.PickWord` | vocab_mailer.py:18-19 | the chosen word is one of "happy", "fast", "strong", "kind", "smart", "clear", "bright"; it is non-empty and has no underscore or newline |
| `Text.ReplaceUnderscore` | vocab_mailer.py:20 | same length; every `_` becomes a space and every other character is kept; the result has no `_` |
| `Text.ReplaceUnderscoreIdempotent` | vocab_mailer.py:20 | replacing twice gives the same as replacing once |
| `Text.ReplaceUnderscoreFixes` | vocab_mailer.py:20 | a name without underscores is left unchanged |
| `Vocab.ConvertNames` | vocab_mailer.py:20-22 | the inner comprehension over one synset: one converted name per lemma, in lemma order |
| `Vocab.LemmaNames` | vocab_mailer.py:20-22 | no name in the flattened list contains `_` |
| `Vocab.LemmaNamesMembers` | vocab_mailer.py:20-22 | a string is in the flattened list exactly when it is the converted form of some lemma name of some synset |
| `Vocab.LemmaNamesEmpty` | vocab_mailer.py:20-22 | the flattened list is empty exactly when every synset (if any) has no lemmas |
| `LexOrder.LexLess` | vocab_mailer.py:23 | Python's code-point lexicographic `<` on strings: strict (never relates a string to itself), and a proper prefix sorts first |
| `LexOrder.LexLessIsFirstDifference` | vocab_mailer.py:23 | the string order used by `sorted` holds exactly when the strings agree up to some position where the first ends and the second goes on, or the first has the smaller code point |
| `LexOrder.Irreflexive` | vocab_mailer.py:23 | no string sorts before itself |
| `LexOrder.Transitive` | vocab_mailer.py:23 | the string order is transitive |
| `LexOrder.Total` | vocab_mailer.py:23 | of two different strings one sorts before the other |
| `LexOrder.Asymmetric` | vocab_mailer.py:23 | two strings never sort before each other |
| `Vocab.AscendingDistinct` | vocab_mailer.py:23 | a strictly ascending list has no two equal entries |
| `Vocab.Insert` | vocab_mailer.py:23 | inserting into a strictly ascending list keeps it strictly ascending and adds exactly the new name (nothing when already present) |
| `Vocab.SortedSet` | vocab_mailer.py:23 | `sorted(set(xs))` is strictly ascending and holds exactly the elements of `xs` |
| `Vocab.AscendingUnique` | vocab_mailer.py:23 | two strictly ascending lists with the same elements are equal |
| `Vocab.SortedSetIsTheEnumeration` | vocab_mailer.py:23 | `sorted(set(xs))` equals every strictly ascending list with the elements of `xs` |
| `Vocab.SortedSetIgnoresOrder` | vocab_mailer.py:23 | inputs with the same elements, in any order and with any repetitions, give the same sorted list |
| `Vocab.AscendingCard` | vocab_mailer.py:23 | a strictly ascending list is as long as its set of elements |
| `Vocab.Synonyms` | vocab_mailer.py:20-23 | at most five synonyms, strictly ascending (so distinct), none containing `_`, each the converted form of some lemma name of some synset |
| `Vocab.SynonymsCount` | vocab_mailer.py:23 | the number kept is the number of distinct converted names when that is below five, and five otherwise |
| `Vocab.SynonymsKeepSmallest` | vocab_mailer.py:23 | a converted name left out means five were kept and every kept synonym sorts before it; so with fewer than five all are kept |
| `Vocab.SynonymsEmpty` | vocab_mailer.py:20-23 | the synonym list is empty exactly when there are no synsets or every synset has no lemmas |
| `Vocab.GetWordAndSynonyms` | vocab_mailer.py:17-24 | the word is from the fixed list; its synonyms are at most five, strictly ascending, underscore-free, and drawn from that word's synsets |
| `Text.Join` | vocab_mailer.py:39 | joining no names gives the empty string, joining one gives that name |
| `Text.JoinAppend` | vocab_mailer.py:39 | the join keeps list order: the last element comes last, after one separator |
| `Text.JoinAvoids` | vocab_mailer.py:39 | a character in neither the separator nor any element is not in the join |
| `Text.JoinSplit` | vocab_mailer.py:38-42 | joining the lines of a text with the newline separator gives back the text |
| `Text.SplitJoin` | vocab_mailer.py:38-42 | splitting a newline join of newline-free lines gives back the lines |
| `Mail.Subject` | vocab_mailer.py:34 | the subject is the prefix `Word of the Day: ` followed by the word |
| `Mail.SubjectInjective` | vocab_mailer.py:34 | different words give different subjects |
| `Mail.SynonymsLine` | vocab_mailer.py:39 | the line is `Synonyms: ` followed by `', '.join(synonyms)` |
| `Mail.Body` | vocab_mailer.py:38-42 | the f-string's text: it starts with the subject and a newline, ends with an empty line, the reply request and a newline, and between the two holds exactly the synonyms line; its length is the sum of those parts |
| `Mail.BodyLines` | vocab_mailer.py:38-42 | the body's lines are the subject, `Synonyms: ` with the synonyms joined by `", "` in list order, an empty line, the reply request, and the empty piece after the final newline |
| `Mail.PlainMessage` | vocab_mailer.py:34-38 | the message goes from the sender to that same sender |
| `Mail.PlainMessageRepeatsSubject` | vocab_mailer.py:34-42 | the first line of the message text is its subject header and the second lists the synonyms, when neither the word nor a synonym holds a newline |
| `Mail.WordOfTheDayBody` | vocab_mailer.py:17-42 | for the picked word and its synonyms, the body's lines are its subject, `Synonyms: ` with those synonyms joined by `", "`, an empty line, the reply request and the final empty piece, when no lemma name contains a newline |

## Left out

- SMTP over SSL, login and `sendmail` (vocab_mailer.py:45-48): network I/O.
- The console message after sending (vocab_mailer.py:49): console output.
- `load_dotenv` and `os.getenv` (vocab_mailer.py:1-12, done twice): reading the environment; the sender address is a parameter and the password is not modelled.
- The WordNet lookup (`wordnet.synsets`, `lemmas()`, `name()`): a foreign library; its result is an input.
- `random.choice`: the draw is an index argument; the model says nothing about the distribution.
- MIME objects (`MIMEMultipart`, `MIMEText`, `attach`, `as_string`): library internals; only the subject, sender, recipient and plain text are modelled.
- `LexOrder.LexLess` compares Dafny characters, which are Unicode scalar values; Python strings may also hold lone surrogate code points, which the model does not represent.
- `Mail.BodyLines`, `Mail.PlainMessageRepeatsSubject` and `Mail.WordOfTheDayBody` require that the word and the lemma names contain no newline, since otherwise the body has more lines.
