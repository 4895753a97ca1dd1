# Verified models of the Ayttm core

These modules model the parts of the repository whose correctness rests on more than
reading one function: the plural-form compiler and the message catalogue of the bundled
`intl` library, its locale-name machinery, the protocol of asynchronous connection
attempts, the doubly linked list, the queue of group requests and the smiley rewriter.
`dafny verify dfyconfig.toml` checks everything.

## What is modelled

**Plural expressions** (`Plural*.dfy`). The LALR tables of `intl/plural.c` are written out
(`PluralTables`) and shown to decide, in all 28 states, what a table-free description of
the automaton decides (`PluralPrecedence`). `PluralMachine` is the stack machine, and
`PluralSyntax` an independent stratified grammar: `?:` (right) below `|`, `&`, equality,
comparison, additive and multiplicative operators and `!`. The machine accepts a token
sequence with a tree exactly when the tree is a reading of all of it that fits the stack,
there is never a second reading, and the stack overflows exactly when a beginning of the
tokens can fill it. `PluralParser.YyParse` is the loop over the growing
stacks and refines the machine; `PluralLexer.YyLex` is the scanner. A rejected input can
leave a result behind: `res` is set when an expression that begins the input is followed
by something that is no operator (`n n` is such an input), because the start rule is
reduced by default in that state. `RejectsExactly` says exactly when. `unsigned long` has
64 bits here. `PluralEval` covers evaluation, which divides by zero exactly if a division
that it reaches has a zero divisor, and the choice of the translated variant.
`PluralMeaning` states what the values mean without the evaluator's own cases,
`PluralTexts` that an accepted text is a spelling of its tree, and `PluralWriting` and
`PluralRules` follow rules from their text to the variant they select.

**Catalogue** (`Probe`, `MessageHash`, `Catalogue`). Double hashing visits every slot of a
prime-sized table once; both search branches return what a plain search through the
entries returns. That hash tables are filled along the probe sequence is taken from the
file format; `FillIsHashed` shows that inserting the entries one by one, into an empty
table of prime size, establishes it.
The hash is generic in the width of `unsigned long`, from 32 bits up, and in the
signedness of `char`.

**Bindings and cache** (`GettextState`, `Gettext`). `Library` holds the sorted binding
list, the default domain, the change counter and the cache of found translations. Every
method is a step of one relation, and over every history of steps a cached translation
with a current counter is what a full search would find now; of a plural message the
answer is the variant that the catalogue's rule selects. `ReboundExactly` says attribute
by attribute what a call may change in a binding, and `SearchesLastDirectory` that the
directory set last is the one that is searched. The search through the
catalogues is a fixed function of domain, binding, category and message.

**Locale names** (`LocaleSyntax`, `ExplodeName`, `Codeset`, `LocaleFile`, `NameBuffer`,
`ArgzVector`, `Variants`, `L10nList`, `LocaleRoundTrip`, `VariantNames`, with `Bits`,
`BitCount`, `Submasks`). Exploding a name is the inverse of joining its parts, on exactly the names of
the two syntaxes. The recursive list of catalogue files stays strictly descending, and a
call adds exactly its own name and those of its variants. What the model follows the code
in, although a reader may expect something else:

- The comparison of the codeset with its normalization (`intl/explodename.c:113`) happens
  before a following `@` has been overwritten, so the normalized codeset counts as
  different whenever a modifier follows (`DiffersExactly`).
- The audience bit of an empty XPG modifier is not cleared, and a modifier is looked for
  in CEN syntax first; `NameRoundTrip` says exactly which names come back unchanged.
- An entry with a modifier and no codeset is one of its own successors (`OwnSuccessor`).
- A variant is named as the name restricted to its parts is written, except that a comma
  is left over before a revision without its sponsor (`VariantName`).

**Aliases** (`TextFile`, `AliasFile`, `LocaleAlias`, `AliasLaws`). The alias table reads files one at a
time as names are not found. Its entries are addresses into a pool that moves when it
grows. What a name expands to is one of its definitions in the files of the whole path,
and nothing is found exactly if there is none. `AliasLaws` ties the definitions in files
and on paths to the lines and directories they are written from. Files do not change
between calls.

**Connections** (`Connection`, `ConnectionSafety`, `ConnectionOrigins`). A transition system over the main
loop, a worker thread for each attempt, cancellation and disconnection, for asynchronous
attempts without SSL, each with a connection of its own. Two expected facts hold only up
to an exception, which is given exactly and shown by a run: a cancelled direct attempt
whose connect failed with an error code other than -1 keeps that code as its socket
(`CancelledFailure`), and a separate disconnect after the worker is done leads to a
success without a socket (`DisconnectedSuccess`). `ConnectionOrigins` traces every
reported socket and status back to an event of the run; a status of -1 may also come from
a disconnect, whose closed descriptor the worker then takes for an error. The status of a connection that is used
again is not reset, which is why each attempt has a status at its start.

**Linked list** (`LList`). Every operation on the heap refines its operation on sequences
and keeps the list doubly linked.

**Queue and smileys** (`StringSplit`, `OfflineQueue`, `GroupMeaning`, `Smileys`,
`SmileyLaws`). Splitting loses no text
exactly if the separator does not overlap itself. Requests are conserved over every
interleaving of additions and flushes of the file as long as their lines fit the line
buffer; `DeliveredWhole` shows that this limit is exact. What the delivered calls do to the
groups of an account is what the requests ask for (`GroupsAreAsWished`). A line of the account with fewer
than four fields makes the source read past its vector; the flush is then stuck, and the
file stays as it was. Smileys never lose text. Whether tags and URLs are left alone depends
on the list of emoticons, and `LeavesAloneExactly` gives the condition on it, which can be
evaluated. The list of the Yahoo module does not meet it: `:<` (`modules/yahoo2/yahoo.c:3780`)
breaks the tag in `:<b>` (`TagBroken`). The comment in `src/smileys.c:303` speaks of
ignoring an URL, but the loop at 309-314 runs to the end of the message, since no byte is
both a blank and `<` (`CopyUrl`, `UrlTakesTheRest`). The text of a smiley tag has brackets
escaped but no ampersands, so that a reader gets the emoticon back exactly if it holds
nothing that looks like an entity (`UnescapedExactly`).

## Model

| member | source | states |
|---|---|---|
| PluralTables.TablesDecide | intl/plural.c:174-291 | in each of the 28 states and for every token the packed tables choose the same shift, reduction, acceptance or failure as the precedence rules |
| PluralTables.TablesGoto | intl/plural.c:174-291 | the goto tables enter the state that the precedence description names after each reduction |
| PluralMachine.StepDecreases | intl/plural.c:605-971 | every pass of the parser decreases a measure, so that it stops on every input |
| PluralCompleteness.Simulate | intl/plural.c:605-971 | from any configuration that expects an operand the parser reads a well-formed expression into one stack entry, or overflows exactly if the expression needs more stack than is left |
| PluralSoundness.StepKeepsViable | intl/plural.c:605-971 | every pass keeps the invariant that the stack and the rest of the input spell the whole input and that every entry obeys the precedence of its surroundings; no reduction finds its stack too short |
| PluralTheorems.RunSound | intl/plural.c:538-1137 | whatever the parser returns describes its input: a reading of all of it, a reading of a prefix, or an overflow that needs a long input |
| PluralTheorems.AcceptsExactly | intl/plural.c:538-1137 | the parser returns 0 with a tree if and only if the tree is a reading of all tokens under the precedence order and fits the stack |
| PluralTheorems.RejectsExactly | intl/plural.c:538-1137 | it returns 1 and still leaves a tree behind if and only if the tree is a reading of a proper prefix followed by no infix operator |
| PluralTheorems.Unambiguous | intl/plural.c:243-291 | precedence and associativity leave one reading of every token sequence |
| PluralTheorems.Trichotomy | intl/plural.c:973-1137 | every run ends with 0, 1 or 2 and says about the input what `RunSound` promises |
| PluralTheorems.ShortInputsFit | intl/plural.c:605-688 | no input of fewer than YYMAXDEPTH - 2 tokens overflows the stack, whatever the tokens are |
| PluralOverflow.OverflowsExactly | intl/plural.c:605-688 | the parser returns 2 if and only if a stack of the largest size that obeys precedence spells a beginning of the tokens |
| PluralLexer.ScanNumber | intl/plural.c:1165-1303 | the digit loop, with its wrap-around at the width of `unsigned long`, computes the decimal value modulo 2^64 |
| PluralLexer.YyLex | intl/plural.c:1165-1303 | the scanner returns the token that stands behind the blanks, its value, and the place after it, for every text |
| PluralParser.Grow | intl/plural.c:609-688 | growing the stacks keeps every state and value on them and never passes the maximum depth |
| PluralParser.Backup | intl/plural.c:694-793 | the table lookup, with its lazily read lookahead, takes the decision of the precedence rules |
| PluralParser.ReduceRule | intl/plural.c:798-971 | a reduction pops its right-hand side, pushes the tree of the rule and enters the state of the goto tables |
| PluralParser.YyParse | intl/plural.c:538-1137 | the parser terminates, returns what the machine returns on the scanned tokens, and its return value and result mean what `AcceptsExactly`, `RejectsExactly` and `OverflowsExactly` say |
| PluralRoundTrip.MinimalDenotes | intl/plural.c:243-291 | putting only the parentheses that precedence requires gives a well-formed tree that denotes the expression |
| PluralRoundTrip.MinimalIsShortest | intl/plural.c:243-291 | no other way of writing an expression has fewer tokens |
| PluralRoundTrip.RenderLexes | intl/plural.c:1165-1303 | the scanner reads back any tokens that need no blank between them, whatever blanks are put there |
| PluralRoundTrip.ParsesAnyWriting | intl/plural.c:538-1137 | every well-formed way of writing an expression, with any blanks and any terminated text behind it, is parsed to exactly that expression while it fits the stack |
| PluralRoundTrip.RoundTrip | intl/plural.c:538-1137 | scanning and parsing the text printed for an expression returns the expression |
| PluralRoundTrip.ShortWritingsFit | intl/plural.c:605-688 | a writing of fewer than YYMAXDEPTH - 1 tokens fits the stack, so that the two rows above apply |
| PluralTexts.LexWeaves | intl/plural.c:1165-1303 | a text in which the scanner finds no error is its tokens, each in its spelling (numbers with any leading zeros), with blanks between them, followed by what ends an expression |
| PluralTexts.AcceptedIsWritten | intl/plural.c:538-1303 | so every text that the parser accepts is a writing of the tree it accepts |
| PluralWriting.SpacedReads | intl/plural.c:538-1303 | an expression printed with blanks around the logical signs is read back as itself |
| PluralEval.FailsExactly | intl/dcigettext.c:979-1057 | evaluation divides by zero if and only if some division among the subexpressions that it reaches has a divisor that evaluates to zero; the right operand of a logical operator and the other branch of a condition are not reached |
| PluralEval.SafeDivisorsEvaluate | intl/dcigettext.c:979-1057 | in particular, an expression in which every divisor is a numeral that is not zero modulo 2^64 evaluates for every number |
| PluralMeaning.ComparisonLaws | intl/dcigettext.c:1028-1039 | `==` and `<` give 1 or 0 by equality and order of the two numbers, and the other four comparisons are the negations or mirror images of these |
| PluralMeaning.SumLaw | intl/dcigettext.c:1024-1025 | a sum is reached by counting on from the left number, starting at zero again after the largest |
| PluralMeaning.ProductLaw | intl/dcigettext.c:1018-1019 | a product is counting on by the left number as often as the right one says |
| PluralMeaning.DifferenceLaw | intl/dcigettext.c:1026-1027 | adding what was subtracted gives the number back |
| PluralMeaning.DivisionLaws | intl/dcigettext.c:1020-1023 | quotient times divisor plus remainder is the dividend, and the remainder is smaller than the divisor |
| PluralMeaning.TruthLaws | intl/dcigettext.c:979-1057 | negation, the logical operators and the condition are decided by whether their operands are zero, and skip the operands that do not matter |
| PluralEval.PluralLookup | intl/dcigettext.c:941-976 | the result is the start of the variant with the evaluated index if that is below both `nplurals` and the number of variants, the start of the block otherwise, and none after a division by zero |
| PluralEval.SplitBlock | intl/dcigettext.c:941-976 | every NUL-terminated translation is the block of the variants that it is split into, none of which holds a NUL |
| PluralEval.SplitOfBlock | intl/dcigettext.c:941-976 | a block is split into the variants that it was made of |
| PluralRules.ReadRule | intl/loadmsgcat.c:498-525 | a header whose rule can be read gives that rule, and every other text gives the Germanic rule with two forms |
| PluralRules.NotOneForm | intl/dcigettext.c:941-976 | with the rule text `n != 1` the first variant is selected for one and the second for every other number |
| PluralRules.AboveOneForm | intl/dcigettext.c:941-976 | with the rule text `n > 1` the first variant is selected for zero and one and the second for every other number |
| PluralRules.SlavicSelects | intl/dcigettext.c:941-976 | with the text of the three-form rule of the Slavic languages, and whatever ends it, the variant is selected by the last two decimal digits of the number |
| PluralRules.SumMeans | intl/dcigettext.c:1024-1025 | the text `n + 7` is read and evaluates to the sum modulo 2^64, for every number |
| PluralRules.DifferenceMeans | intl/dcigettext.c:1026-1027 | the text `n - 7` is read and evaluates to the difference, which wraps around below zero |
| PluralRules.ProductMeans | intl/dcigettext.c:1018-1019 | the text `n * 7` is read and evaluates to the sevenfold number modulo 2^64 |
| PluralRules.QuotientMeans | intl/dcigettext.c:1020-1021 | the text `n / 7` is read and evaluates to the quotient, rounded down |
| PluralRules.NegationMeans | intl/dcigettext.c:979-1057 | the text `!n` is read and evaluates to one for zero and to zero otherwise |
| Probe.NextSlot | intl/dcigettext.c:707-711 | the conditional subtraction at the end of the probe loop is addition of the increment modulo the size, without overflow |
| Probe.SlotsDistinct | intl/dcigettext.c:677-712 | in a table of prime size no slot is probed twice in the first `size` probes |
| Probe.EverySlotProbedOnce | intl/dcigettext.c:677-712 | the first `size` probes visit every slot exactly once |
| MessageHash.HashLowWord | intl/hash-string.h:37-55 | modulo 2^32 the hash is the same for every width of `unsigned long` from 32 bits up, and below 2^28 |
| MessageHash.WiderHashDiffers | intl/hash-string.h:37-55 | the wider computation does carry past bit 31 for some string, so that the reduction is needed |
| MessageHash.FoldedIs | intl/hash-string.h:48-52 | within one word, folding moves the top four bits down to bit 4 and combines them there by exclusive or |
| MessageHash.ShortHash | intl/hash-string.h:37-55 | the hash of a string of at most five unsigned bytes is the number with these bytes as digits to base 16 |
| MessageHash.HashString | intl/hash-string.h:37-55 | the loop of shifts and exclusive ors computes that hash |
| Catalogue.LookupUnique | intl/dcigettext.c:676-737 | in a strictly sorted catalogue the plain search has one answer |
| Catalogue.SamePathExactly | intl/dcigettext.c:680-682 | two hash values probe the same slots in the same order if and only if they agree modulo the table size and modulo the size less two |
| Catalogue.FindHashed | intl/dcigettext.c:677-712 | the probe loop terminates if one slot is empty, and finds exactly what the plain search finds |
| Catalogue.FindBinary | intl/dcigettext.c:717-737 | so does the binary search |
| Catalogue.FindMsg | intl/dcigettext.c:662-737 | whichever branch is taken, the index returned is that of the message, or absence is reported |
| Catalogue.InsertKeeps | intl/dcigettext.c:677-712 | filling a free slot along the probe sequence leaves every entry placed before on its own sequence |
| Catalogue.InsertFills | intl/dcigettext.c:677-712 | inserting one more entry keeps all earlier ones findable, makes the new one findable, and leaves an empty slot in a table that is larger than the number of entries |
| Catalogue.FilledIsHashed | intl/dcigettext.c:677-712 | a table filled along the probe sequence is what the hash branch requires |
| Catalogue.FillIsHashed | intl/dcigettext.c:677-712 | inserting all entries in order into an empty table of prime size, larger than their number, gives what the hash branch requires |
| Gettext.Library.FindBinding | intl/dcigettext.c:460-472 | the walk along the sorted list finds the binding of a domain or shows that there is none |
| Gettext.Library.TextDomain | intl/textdomain.c:78-132 | a name becomes the default domain, the empty name brings back `messages`, and the counter moves with every name given; without a name nothing changes |
| Gettext.Library.Enqueue | intl/bindtextdom.c:282-299 | a new binding goes to its place; the list stays sorted and no other binding changes |
| Gettext.Library.SetBindingValues | intl/bindtextdom.c:92-321 | an attribute that is set has that value afterwards and is returned; one that is not keeps its value, or the default of a new binding; without either an unbound domain stays unbound; no other binding changes, and the counter moves if and only if one does |
| Gettext.Library.DCIGetText | intl/dcigettext.c:428-643 | the translation returned, from the cache or not, is what a full search finds in the present state, from the start of the variant that the rule of its catalogue selects for the number if it is a plural message; without a translation the answer is one of the two messages, by the number |
| GettextState.StepKeepsCoherent | intl/dcigettext.c:428-452 | every operation keeps the cache coherent |
| GettextState.SameCounterSameBindings | intl/bindtextdom.c:316-318 | two moments with the same counter have the same bindings and default domain, whatever was called between them |
| GettextState.HistoryCoherent | intl/dcigettext.c:428-452 | the cache is coherent in every state of every history |
| GettextState.ReboundExactly | intl/bindtextdom.c:132-299 | the binding after a call is the only one with the attributes that the arguments ask for, with its codeset counter moved exactly if the codeset changed |
| GettextState.SearchesLastDirectory | intl/bindtextdom.c:132-166 | in every history, searches of a domain use the directory that was set for it last |
| ConnectionSafety.RunInvariant | libproxy/networking.c:153-344 | the invariant of worker, queue and main loop holds in every reachable state |
| ConnectionSafety.CallbackOnceAndLast | libproxy/networking.c:153-203 | in every interleaving the callback runs at most once, only after the last push of the worker, and the start token is never taken for the completion |
| ConnectionSafety.ReportsAreConsistent | libproxy/networking.c:172-179 | a reported success was not cancelled and has its socket unless a separate disconnect took it; any other report finds both descriptors closed, except for the leftover error code, given exactly |
| ConnectionOrigins.SocketsAreAnswers | libproxy/networking.c:221-344 | in every run, the socket that a callback finds was returned to that attempt by its own accept, direct connect or connect to the proxy; the answer of the negotiation with the proxy never takes its place |
| ConnectionOrigins.StatusesAreAnswers | libproxy/networking.c:153-344 | in every run, a reported status is the status at the start, the cancellation code of an attempt that was cancelled, the error of a step of its own that failed, or -1 after a disconnect |
| ConnectionSafety.CompletionArrives | libproxy/networking.c:153-203 | once the worker is gone the next poll makes the callback |
| ConnectionSafety.AttemptCompletes | libproxy/networking.c:221-344 | from every reachable state a pending attempt gets its callback once the main thread has finished what it is busy with, after at most eight steps of its worker and one poll, for every sequence of answers of the system to these steps |
| ConnectionSafety.CancelHitsItsAttempt | libproxy/networking.c:423-441 | cancelling the tag of an active attempt cancels that attempt and no other |
| ConnectionSafety.CancelledFailure | libproxy/networking.c:245-319 | a run in which a cancelled attempt reports with the error code of its connect left in the socket field |
| ConnectionSafety.DisconnectedSuccess | libproxy/networking.c:521-542 | a run in which a separate disconnect leads to a success without a socket |
| LList.Append | src/llist.c:29-50 | the list of the same nodes and a new last one, doubly linked |
| LList.Prepend | src/llist.c:52-63 | the same with a new first node |
| LList.Concat | src/llist.c:65-81 | two lists without common nodes become one |
| LList.RemoveLink | src/llist.c:100-114 | the list without the link, which keeps its own pointers; all other links stay doubly linked |
| LList.Remove | src/llist.c:83-96 | in place: the first node that holds the value is bypassed and all other nodes stay; without such a node nothing changes |
| LList.Length | src/llist.c:116-126 | the number of nodes |
| LList.Copy | src/llist.c:146-156 | new nodes with the same data; the original is unchanged |
| LList.Find | src/llist.c:174-180 | the first node that holds the value, or none |
| LList.Nth | src/llist.c:198-204 | the node at a position, none for one that is negative or too large |
| LList.ListInsertSorted | src/llist.c:206-232 | in place: the same nodes, and a new one with the value before the first larger one |
| LList.InsertAllSorts | src/llist.c:206-232 | one value after another inserted in order gives an ascending permutation of the input that keeps the order of values that compare equal, for every total preorder |
| LList.SortInto | src/llist.c:206-232 | on the heap: inserting into an empty list one by one gives a doubly linked list of new nodes that holds exactly this stable ascending order |
| BitCount.PopCounts | intl/l10nflist.c:144-154 | the folded sums count the bits of every 16-bit value |
| Submasks.SubmaskIsMasked | intl/l10nflist.c:296 | masking with the complement gives zero if and only if every bit of one mask is a bit of the other |
| Submasks.SubmaskCount | intl/l10nflist.c:268-271 | a mask has exactly two to the number of its bits submasks |
| ArgzVector.Count | intl/l10nflist.c:76-88 | the number of strings in an argz vector |
| ArgzVector.Stringify | intl/l10nflist.c:99-111 | in place, every NUL but the last becomes the separator |
| ArgzVector.Next | intl/l10nflist.c:121-137 | the beginning of the following string, or NULL after the last one |
| LocaleFile.NameFits | intl/l10nflist.c:182-243 | what is allocated for a file name always suffices, with one byte to spare if there is a sponsor and none otherwise |
| NameBuffer.BuildName | intl/l10nflist.c:182-243 | the name written into the buffer is the directories with colons, a slash, the parts chosen by the mask with their marks, a slash and the file, never past its end |
| VariantNames.VariantName | intl/l10nflist.c:203-243 | the name of a variant is the text of the locale name restricted to the parts of the variant if and only if no revision stands there without its sponsor |
| VariantNames.XpgNameListed | intl/l10nflist.c:222-313 | a plain XPG name with a modifier is itself the name of one of its variants, and an entry for its file is made |
| Variants.IsAllowed | intl/l10nflist.c:295-300 | the test of the loop holds for the submasks that do not mix the syntaxes or the codesets |
| Variants.AllowedExactly | intl/l10nflist.c:295-300 | these are the masks with parts of one of three groups only: those of the CEN syntax, those of the XPG syntax with the codeset as written, and those with the normalized codeset |
| Variants.WantedMember | intl/l10nflist.c:293-313 | exactly which variants the loop makes entries for |
| Variants.WantedDescends | intl/l10nflist.c:293-313 | more specific variants come before less specific ones |
| Variants.WantedFits | intl/l10nflist.c:268-313 | the successors and the NULL after them fit the array that is allocated for them |
| Variants.OwnSuccessor | intl/l10nflist.c:222-228 | with a modifier, the mask without the XPG bit has the same name, and that entry is its own successor exactly if there is no codeset |
| L10nList.FileList.Find | intl/l10nflist.c:245-261 | the walk finds the entry of a name or its place in the descending list |
| L10nList.FileList.Make | intl/l10nflist.c:156-316 | the recursion terminates; the list stays strictly descending and loses nothing; the entry returned has the constructed name; every new entry is complete, with the entries of exactly its variants as successors; without allocation nothing changes |
| L10nList.ListedExactly | intl/l10nflist.c:156-316 | a call adds the names of its entry and of all variants, and no other name |
| Codeset.NormalizeCodeset | intl/l10nflist.c:322-361 | the two loops produce the letters in lower case and the digits, after `iso` if there are no letters, within the allocated size |
| Codeset.NormalizedOnce | intl/l10nflist.c:322-361 | a normalized name is its own normalization |
| Codeset.NormalizedPlain | intl/l10nflist.c:322-361 | digits and small letters stay as they are, and `iso` is put before them if there is no letter |
| Codeset.NormalizedIgnoresPunctuation | intl/l10nflist.c:318-322 | a byte that is neither a letter nor a digit makes no difference, wherever it stands |
| Codeset.NormalizedIgnoresCase | intl/l10nflist.c:318-322 | nor does the case of a letter, wherever it stands |
| LocaleSyntax.ExplodeJoins | intl/explodename.c:51-182 | the parts with their delimiters make the name again, for every name, and are parts of a valid name |
| LocaleSyntax.ExplodeRejoin | intl/explodename.c:51-182 | parts are found again from their text if and only if they make a valid name of one of the two syntaxes |
| ExplodeName.Scan | intl/explodename.c:40-48 | the cursor stops at the first delimiter or at the end |
| ExplodeName.TakePart | intl/explodename.c:83-166 | one part is cut off in place: its delimiter becomes a NUL, and nothing else changes |
| ExplodeName.DiffersExactly | intl/explodename.c:107-117 | the comparison with the normalized codeset fails exactly if it is another text or a modifier follows |
| ExplodeName.OverwritesDelimiters | intl/explodename.c:83-166 | the buffer afterwards equals the name except for NULs in the place of delimiters |
| ExplodeName.ExplodeName | intl/explodename.c:51-182 | every pointer is to its part, which a NUL ends; the buffer holds the parts with NULs between them; the mask has the bits of the parts found |
| LocaleRoundTrip.MaskBits | intl/explodename.c:83-182 | which bit of the mask stands for which part, after empty XPG parts have been cleared |
| LocaleRoundTrip.NameRoundTrip | intl/l10nflist.c:203-243 | the most specific file name repeats the locale name if and only if there is no `@` modifier, no empty or differently spelled XPG part and no revision without a sponsor |
| AliasFile.WrittenIsRead | intl/localealias.c:234-266 | a definition written as a line is read back, whatever blanks are around it |
| AliasFile.LineIsPlain | intl/localealias.c:234-266 | names and values are nonempty and hold neither blanks nor NULs |
| AliasLaws.FileMeans | intl/localealias.c:180-331 | a file written as lines with definitions that fit the buffer, and comments of any length, has exactly these definitions, in order |
| AliasLaws.LinesMean | intl/localealias.c:180-331 | the same for lines anywhere in a file: what follows them is read as if it stood alone |
| AliasLaws.SameNameExactly | intl/localealias.c:363-390 | two names are the same if and only if they differ at most in the case of letters |
| AliasFile.ReadFields | intl/localealias.c:234-266 | the cursor finds the first two words of a line that is no comment, or that there are none |
| AliasFile.ReadLine | intl/localealias.c:207-229 | a line that does not fit the buffer is cut, and the rest of it is read and ignored |
| AliasFile.AliasCompare | intl/localealias.c:363-390 | the loop compares names without regard to case |
| LocaleAlias.AliasTable.GrowPool | intl/localealias.c:275-302 | moving the pool and rebasing every entry changes nothing that an entry denotes, wherever the pool goes |
| LocaleAlias.AliasTable.Store | intl/localealias.c:268-316 | the table denotes one more definition and otherwise what it did |
| LocaleAlias.AliasTable.ReadAliasFile | intl/localealias.c:180-331 | the table gains exactly the definitions in the file and is sorted again |
| LocaleAlias.AliasTable.ExpandAlias | intl/localealias.c:122-178 | lazy loading equals eager loading: a value is returned if and only if some file on the whole path defines the name, and it is such a definition; nothing is read for a known name |
| AliasLaws.PathMeans | intl/localealias.c:147-165 | a path joined from directories with colons has the definitions of each of them, in order, and empty places on it have none |
| StringSplit.PiecesJoin | src/mem_util.c:121-151 | the pieces of a string, joined again, are the string, whatever the separator |
| StringSplit.PiecesOfJoined | src/mem_util.c:121-151 | joined texts are taken apart into the same texts if and only if the separator, put behind a text, begins nowhere before and is not in the last text; no other such texts make the same string |
| StringSplit.LosesNothingExactly | src/mem_util.c:130-149 | the last piece of a string that ends with the separator, which is dropped, is empty for every such string if and only if no end of the separator is also a beginning of it |
| StringSplit.TailLost | src/mem_util.c:130-149 | for a separator that overlaps itself, a string whose last bytes are lost |
| StringSplit.StrSplit | src/mem_util.c:121-151 | for every nonempty separator the vector holds all pieces, except the last one if the string ends with the separator, or the first ones that were asked for |
| OfflineQueue.AtoiDecimal | src/offline_queue_mgmt.c:77-81 | a number is read back as it was written |
| OfflineQueue.GroupQueue.Add | src/offline_queue_mgmt.c:65-85 | one line is appended, with account, action, old and new group between tabs, and the queue holds one more request |
| OfflineQueue.FlushFile | src/offline_queue_mgmt.c:270-300 | flushing a file of lines that fit gets to the end, makes exactly the calls of the account, in order, and keeps the lines of all others |
| OfflineQueue.StuckExactly | src/offline_queue_mgmt.c:270-300 | a flush gets to the end of a file if and only if every chunk that is read for the account has four fields |
| OfflineQueue.ValidIsReadable | src/offline_queue_mgmt.c:270-300 | a queue of requests that fit can be flushed for any account |
| OfflineQueue.DeliveredWhole | src/offline_queue_mgmt.c:270-300 | a request is delivered whole, with nothing left behind, if and only if its line fits the buffer, whatever the lengths of its fields |
| OfflineQueue.GroupQueue.Flush | src/offline_queue_mgmt.c:249-305 | for every file and account the loop does this, chunk by chunk; a flush that is stuck leaves the file as it was |
| OfflineQueue.FileFollows | src/offline_queue_mgmt.c:65-305 | in every history of the file whose requests fit, it holds the lines of the requests that wait, and the calls made are those of the requests flushed |
| OfflineQueue.Conserved | src/offline_queue_mgmt.c:249-305 | over every interleaving of additions of lines that fit and flushes of the file, the calls an account's service received and those that a flush of the present file would make are together what was asked for, in order |
| GroupMeaning.LineAsksFor | src/offline_queue_mgmt.c:274-294 | a flushed line makes one call: it adds the new group for action 4, deletes the old one for 5 and renames the old to the new one for 6; for any other action there is no call |
| GroupMeaning.GroupsAreAsWished | src/offline_queue_mgmt.c:249-305 | over every interleaving of additions and flushes, the groups that an account has after the calls made and those of a flush now are the groups that its requests ask for, one after the other |
| Smileys.AltText | src/smileys.c:325-350 | the escaped emoticon fits the buffer of 128 bytes and is not cut |
| Smileys.PiecesSource | src/smileys.c:286-360 | putting the emoticons back for the tags gives the message, for every message and every list of nonempty emoticons |
| Smileys.NothingProtectedIsRewritten | src/smileys.c:286-360 | from any place of a message on, no byte in a tag or after the beginning of a URL becomes part of a smiley, if the list meets the condition of the next row |
| Smileys.LeavesAloneExactly | src/smileys.c:286-360 | tags and URLs are left alone in every message if and only if no emoticon of the list, followed by nothing, by one letter or by an end of a URL prefix, is the first match at its beginning, where neither a tag nor a URL begins, while one begins inside it |
| Smileys.TagBroken | src/smileys.c:286-360 | with every list in which `:<` is the first match of `:<b>`, the tag in this message is broken |
| SmileyLaws.TagIsFirst | src/smileys.c:318-322 | a smiley stands for the first emoticon on the list that is found at its place |
| SmileyLaws.CopiedIsProtected | src/smileys.c:286-360 | a byte at which an emoticon stands is copied only inside a tag or after the beginning of a URL, if the list meets the condition of `LeavesAloneExactly` |
| SmileyLaws.TagEndIs | src/smileys.c:290-301 | a tag ends behind its first `>`, or with the message |
| SmileyLaws.UnescapedExactly | src/smileys.c:333-349 | reading the entities of the escaped emoticon gives the emoticon if and only if it holds neither `&gt;` nor `&lt;` |
| Smileys.UrlTakesTheRest | src/smileys.c:303-316 | after the beginning of a URL the whole rest of the message is one copied piece |
| Smileys.CopyUrl | src/smileys.c:305-316 | the loop that copies a URL runs to the end of the message, past blanks and tags |
| Smileys.Smilify | src/smileys.c:269-367 | the nested loops terminate and append exactly these pieces, each tag with its name, service and escaped emoticon |

## Left out

- Allocation failure everywhere: the parser's reaction to a NULL expression, `FREE_EXPRESSION`, the early returns of the locale code and the list.
- ExplodeName.ExplodeName: the character classes of the codeset are those of the C locale.
- LocaleAlias.AliasTable.ExpandAlias: alias files contain no NUL bytes and do not change between calls; the order of definitions of equal names, which sorting leaves open, is one of the possible orders.
- L10nList.FileList.Make: entries are found again by reference in a sequence that stands for the chain of `next` pointers; the `data` field and the reading of catalogues are not modelled.
- OfflineQueue.GroupQueue.Add: actions are numbers from 0 up; file names, failing file operations and services that lack one of the three calls are not modelled.
- OfflineQueue.GroupQueue.Flush: the file holds no NUL bytes; what a process that has read past its vector does after that is not modelled, only that the file is not replaced.
- StringSplit.StrSplit: an empty separator, at which the source never stops, and a string shorter than the separator if the number of elements is not given, where the source compares bytes before the string.
- GettextState.HistoryCoherent: the counter is unbounded, where the C counter could wrap around after 2^32 changes.
- Catalogue.FindMsg: byte swapping of catalogues of the other endianness and the conversion of translations to the output codeset.
- ConnectionSafety.RunInvariant: SSL and its questions to the user, the synchronous path, `ay_connection_free`, calls made from inside callbacks and the memory of the records.
- The contact queue, file transfer, the account and contact file grammars, and the user interface.
- LList: `l_list_free`, `l_list_foreach`, `l_list_find_custom`, `l_list_empty` and `l_list_singleton` would only add easy members.
