# Verified cores of w3m, ping and traceroute

A Dafny model of the algorithmic cores of this tree, with proofs of what they promise:

- the LU solver of w3m's table layout (`LuFactor`, `LuSolve`),
- w3m's anchor index, the renumbering of its markers and the update of form fields
  (`Anchors`, `Markers`, `Reseq`, `Numbering`, `Forms`, `FieldShift`),
- its redirect-loop detector (`Redirect`), its column arithmetic and line folding (`Columns`,
  `Folding`), its HTML token scanner (`Tokens`, `TokenForms`), its path clean-up (`Paths`), its quoting
  codecs (`Quoting`, `Entities`), its buffered input (`Streams`), its hash table and history
  (`HashTable`, `History`),
- the duplicate table, the counters and the schedule of ping (`Ping`, `PingSchedule`), and the
  Internet checksum of ping and traceroute (`Checksum`).

Code that works in place is modelled in place: arrays, two-dimensional arrays and objects whose
methods are proved against functions of the old state; the properties of whole runs are then
lemmas about those functions. Check everything with `dafny verify dfyconfig.toml`.

## How to read it

Each module has a reference that says what the code is for, without its loops and buffers: a
product of triangular matrices, a map on marker numbers, a stack of path components, the lines
of a byte sequence, the distinct strings of a run in the order of their last use, the residue of
a sum. The methods are proved to compute the reference and the lemmas say what the reference
guarantees.

Some properties do not hold of the code on all inputs. Each has its exact condition and a failing
input:

- LU factorisation: since the row scales are not permuted with the rows, a column can be given up
  although it is not zero. The factorisation is right if and only if that never happens
  (`FactorisesIff`; fails for every threshold below 1, `LossHappens`).
- Renumbering: several pending anchors may be given clashing numbers. The map is a bijection if and
  only if the insertion numbers do not decrease (`BijectionIff`, `DescentMisses`; `ClashHappens`),
  which holds when numbers follow position or one anchor is pending (`FollowingIsBijection`); for
  distinct locations the marker list is right only then (`ReseqAnchor`).
- Markers behind a re-rendered field: four lists are shifted against one marker list, but images and
  names do not carry marker numbers. A marker stays at its anchor if and only if the last moved
  anchor with the same number starts at the same place (`MarkerAtStartIff`; `SharedNumberMisleads`).
- Spans over several lines: the shift does not ask on which line an end lies. It moves the right
  ends if and only if no end on another line is within its reach (`MovedRightIff`;
  `SpansAreDamaged`).
- Redirect loops: a refusal below the limit means that the URL was met before if and only if
  `same_url_p`, which ignores user, password, query and label, tells the URLs apart
  (`RepeatsOnlyIff`; `QueryIsIgnored`).
- Folding at a limit: `columnLen` counts the part of a character in front of a line by its first
  byte. Over all lines with such a start, the count bounds the width if and only if it is no less
  than what the part takes up (`TailFitsIff`; `TailOverflows`).
- Remembered columns: asked at the end of a line that was cut inside a visible character, the table
  of `calcPosition` answers for the longer line, and only then (`MemoIsFreshIff`; `StaleColumn`).
- Block reads: `ISread` declares the end of the input too early if and only if exactly the bytes
  asked for were buffered and more input was left (`Stream.Read`; `EarlyEnd`).
- URL quoting is undone by unquoting if and only if the text held no escape (`UrlRoundTripIff`;
  `EscapeIsLost`), file-name quoting if and only if the name has no line break (`FileQuote`;
  `LineBreakIsLost`).
- Path clean-up follows the component stack on every absolute path, and on a relative one if and
  only if its first component is not "." and the path never goes up from it, or it is ".."
  (`RelativeFollowsIff`; `DotIsKept`, `RelativeDeparts`); the exact result is given for every path.

Where code and comments disagree the code is followed: the comment of ping's `in_cksum` asks for
less than 32 KB, but the sum is right up to 131074 bytes, and wraps only on longer packets
(`PingCksum`, `PingBoundIsTight`).

## Model

| member | source | states |
|---|---|---|
| LuFactor.FactorisesIff | w3m/matrix.c:68-121 | P·A0 = L·U for the packed result and the recorded row permutation, exactly when no column is given up while it still has a nonzero entry from the diagonal down |
| LuFactor.LossHappens | w3m/matrix.c:94-107 | for every threshold below 1 a 3 by 3 matrix whose result is no factorisation, together with its inverse |
| LuFactor.RunPermutes | w3m/matrix.c:77-78 | the index array is a permutation after any number of columns |
| LuFactor.RunRestores | w3m/matrix.c:90-119 | after k lossless columns, the finished part of L and U and the unfinished rows together give back the permuted input |
| LuFactor.LossIsFinal | w3m/matrix.c:103-106 | an entry lost in one column is never made good by later ones |
| LuFactor.RowScales | w3m/matrix.c:80-88 | the largest magnitude of every row, as the loop fills it in |
| LuFactor.PivotIsBest | w3m/matrix.c:92-102 | a row from the diagonal down is found exactly if one has a nonzero entry that is not too large for its nonzero scale, and then the first with the greatest ratio of entry to scale |
| LuFactor.FindPivot | w3m/matrix.c:92-102 | the same of the loop, on the array; no division by zero |
| LuFactor.UpperIsItsOwnFactor | w3m/matrix.c:68-121 | an upper triangular matrix without a zero on its diagonal comes back unchanged, with no row moved |
| LuFactor.SingleStays | w3m/matrix.c:90-91 | the last column is never worked on: a single entry stays |
| LuFactor.MaxAbsIsReached | w3m/matrix.c:80-88 | the scale of a row is the magnitude of one of its entries |
| LuFactor.SwapRows | w3m/matrix.c:110-111 | exactly two rows of the array change places |
| LuFactor.ReduceRow | w3m/matrix.c:115-117 | the row of the array becomes the reduced row, all others stay |
| LuFactor.EliminateColumn | w3m/matrix.c:91-119 | array and index array take one step of the reference |
| LuFactor.LUfactor | w3m/matrix.c:68-121 | array and index array end up as the factor of the input |
| LuSolve.Lsolve | w3m/matrix.c:216-245 | also in place: 0 means that the lower triangular system holds row by row for the old right-hand side; -1 exactly when some row is too small to divide by |
| LuSolve.Usolve | w3m/matrix.c:181-210 | the same for the upper triangular system, from the last row up |
| LuSolve.Associates | w3m/matrix.c:127-138 | (L·U)·x = L·(U·x), row by row |
| LuSolve.TriangularSolvesSuffice | w3m/matrix.c:127-138 | solving with L on the permuted right-hand side and then with U solves the factorised system |
| LuSolve.LUsolve | w3m/matrix.c:127-138 | a zero result means A0·x = b for every A0 with this factorisation; -1 that back substitution met a diagonal entry too small; at threshold zero and without a zero on the diagonal, never -1 |
| LuSolve.LUinverse | w3m/matrix.c:154-174 | a non-null result is a right inverse, column by column; null means that a unit vector could not be solved for; the factorisation is left alone |
| Anchors.OnAnchor | w3m/anchor.c:102-114 | zero exactly inside the span, negative exactly before it |
| Anchors.ReadingOrder | w3m/anchor.c:102-114 | points are compared by line, then by position |
| Anchors.RegisteredIsSorted | w3m/anchor.c:8-56 | any registration order gives a sorted array that is the multiset of what was registered, and ordered disjoint spans if they were disjoint |
| Anchors.AnchorList.PutAnchor | w3m/anchor.c:8-56 | an empty anchor at the first place not before the point; everything else keeps its order, across growth of the array |
| Anchors.AnchorList.Register | w3m/anchor.c:8-56 | registration completed by its caller is insertion into the sorted contents |
| Anchors.AnchorList.RetrieveAnchor | w3m/anchor.c:116-142 | from any cached index: the cache ends in range and the answer is NULL exactly when no anchor contains the point |
| Markers.BijectionIff | w3m/anchor.c:261-288 | `seqmap` is a bijection on 0 to nmark + pending exactly when the insertion numbers do not decrease |
| Markers.DescentMisses | w3m/anchor.c:261-288 | if they do decrease, names a number that no anchor gets |
| Markers.FollowingIsBijection | w3m/anchor.c:240-293 | bijection when existing numbers follow position, or for a single pending anchor |
| Markers.HmarkerList.PutHmarker | w3m/anchor.c:453-478 | the number designates the point, other numbers keep theirs, the list grows as needed |
| Reseq.ClosestNextAnchor | w3m/anchor.c:480-499 | over several lists, the earliest numbered anchor strictly after the point |
| Reseq.InsertNumber | w3m/anchor.c:275-279 | one round over `seqmap`: the new number taken over, later ones moved up by one |
| Reseq.RenumberAll | w3m/anchor.c:222-237 | every anchor with a number goes through the map, in place |
| Reseq.PlaceExisting | w3m/anchor.c:285-288 | the old markers are entered under their new numbers behind the new ones |
| Reseq.HeldIsFaithful | w3m/anchor.c:261-289 | with nondecreasing insertion numbers the new marker list has no gap and designates every old location and every new start |
| Reseq.AnchorDesignates | w3m/anchor.c:240-293 | an old anchor's number still designates its old marker, a new one's its start |
| Reseq.FaithfulIsNondecreasing | w3m/anchor.c:261-289 | when all locations are distinct, no marker list whatever is faithful to insertion numbers that decrease |
| Reseq.ClashHappens | w3m/anchor.c:240-293 | a sorted buffer, its numbers in range and its markers at the starts of its links, that is renumbered with a clash: two pending anchors, each in front of a link, the links numbered against their order |
| Reseq.ReseqAnchor | w3m/anchor.c:240-293 | both lists are renumbered through the map; the marker list is faithful if the insertion numbers do not decrease, and for distinct locations only then |
| Numbering.NumbersStayInOrder | w3m/anchor.c:240-293 | if the numbers increased with position before (anchors at one place sharing theirs), they do so afterwards, with every pending anchor numbered between its neighbours |
| Forms.SizeField | w3m/form.c:280-316 | the sizing pass gives the exact length of the rendered field |
| Forms.PasswordIsHidden | w3m/form.c:341-352 | the field of a password is stars, then blanks, as long as it is wide |
| Forms.SizedThatFit | w3m/form.c:325-382 | the characters shown are all of them, or fill the width, or the next one is too wide |
| Forms.PlainIsShown | w3m/form.c:365-380 | plain characters are shown byte for byte, each as one character |
| Forms.PlainFieldShows | w3m/form.c:325-386 | the text of a field of plain characters: those that fit, then blanks |
| Forms.OthersAreBlank | w3m/form.c:331-361 | what cannot be displayed shows as one blank each, a carriage return as nothing; a line feed ends the line of a text area |
| Forms.EffectIsKept | w3m/form.c:324-325 | the whole field has the effect of its first cell |
| Forms.ClassIsKept | w3m/form.c:367-376 | the cells of a character have its class |
| Forms.WriteField | w3m/form.c:325-386 | the writing pass puts exactly the rendered field behind an untouched prefix, within the sized buffer |
| Forms.NextStart | w3m/form.c:387-397 | where the next line of the value starts is never before where this one stopped |
| Forms.NextStartIsBehindLineEnd | w3m/form.c:387-397 | it is right behind one LF, CR or CRLF, the first from there on unless lines are folded |
| Forms.FormUpdateLine | w3m/form.c:272-409 | the line becomes prefix, field, tail; the two passes agree; nothing outside the field changes; a password leaves only stars and blanks |
| FieldShift.ShiftAnchorPosition | w3m/anchor.c:522-558 | exactly the ends that the loop finds behind the position move, also of spans over several lines, and their markers with them |
| FieldShift.MovedOnOneLine | w3m/anchor.c:546-557 | the ends of a span within one line move exactly when they lie behind the position on its line |
| FieldShift.MovedRightIff | w3m/anchor.c:546-557 | for every span, both ends move exactly as they should if and only if the loop does not reach a start on an earlier line to the right of the position, or an end on a later line not to its left |
| FieldShift.SpansAreDamaged | w3m/anchor.c:546-557 | a span over two lines that is damaged by a field on either of them |
| FieldShift.MarksExactly | w3m/anchor.c:550-554 | every marker on the line goes to the start of the last moved anchor with its number; all others stay |
| FieldShift.MarksCompose | w3m/form.c:484-491 | moving markers for one list after another is moving them for the concatenated lists |
| FieldShift.MarkFollowsIff | w3m/anchor.c:550-554 | a marker at the start of a moved anchor is at its start again exactly if the last moved anchor with the same number starts at the same place |
| FieldShift.MarkerAtStartIff | w3m/form.c:483-492 | the same for the four lists of a buffer and a field update |
| FieldShift.SharedNumberMisleads | w3m/form.c:484-491 | a link and an image with the same number, for which the link's marker ends up at the image, whatever the shift |
| FieldShift.MarksFollow | w3m/anchor.c:550-554 | if no two moved anchors share a number, every marker at the start of a moved anchor follows it |
| FieldShift.OthersKept | w3m/anchor.c:550-554 | markers of no moved anchor stay |
| FieldShift.MovedKeepsOrder | w3m/anchor.c:522-558 | a list of one-line spans clear of the field, or enclosing it, stays ordered when the field gets any new length |
| FieldShift.CoversAfter | w3m/anchor.c:522-558 | an anchor clear of the field covers the same characters as before, one that encloses it the new field in place of the old |
| FieldShift.CoversField | w3m/anchor.c:522-558 | for the field's own anchor that is exactly the new field |
| FieldShift.UpdateField | w3m/form.c:469-493 | the line is prefix, new field, tail; each of the four lists is moved and, if its spans lie on one line clear of the field or enclosing it, is in order again and covers what it has to; every marker on the line is at the last moved anchor of the four lists with its number |
| Redirect.Guard.Check | w3m/file.c:1641-1689 | the ring of half the size answers as the whole history would: refused at the limit, on u(n-1), or for even n on u(n/2) |
| Redirect.Guard.Reset | w3m/file.c:1658-1663 | the history is forgotten |
| Redirect.LoopIsRefused | w3m/file.c:1664-1680 | a sequence with tail m and period l gets no further than step 2·k·l, k·l being the least positive multiple of l not below m, nor beyond the limit |
| Redirect.RepeatsOnlyIff | w3m/file.c:1641-1680 | chains over a set of URLs are refused below the limit only at a URL met before, if and only if `same_url_p` tells the URLs of the set apart or the limit is below two |
| Redirect.QueryIsIgnored | w3m/file.c:1641-1648 | a redirection that changes only the query is refused as a loop |
| Redirect.SimpleUrlsAreToldApart | w3m/file.c:1641-1648 | chains of URLs with a host, a file and nothing else are refused below the limit only at a repeat |
| Redirect.SimpleStep | w3m/file.c:1664-1680 | with hosts in small letters the test is equality with the last URL and, at even steps, with the middle one |
| Redirect.CaseIsIgnored | w3m/file.c:1645-1645 | the case of a host does not matter |
| Redirect.LastIsRefused | w3m/file.c:1664-1674 | a URL that repeats the last one is refused at every step, and any at the limit |
| Redirect.Follow | w3m/file.c:1650-1689 | a chain followed through the ring from a reset: every URL accepted in its turn, the first refusal justified, and no periodic chain followed beyond its bound |
| Columns.Next | w3m/etc.c:472-491 | never moves back; a tab moves to the next multiple of the tab stop |
| Columns.PlainColumns | w3m/etc.c:484-487 | displayable characters take up their widths |
| Columns.ControlColumns | w3m/etc.c:475-483 | control characters take up two columns each, line feeds one, carriage returns none |
| Columns.UnknownColumns | w3m/etc.c:485-486 | undisplayable bytes take up four columns each |
| Columns.TabColumns | w3m/etc.c:476-477 | tabs lead from stop to stop |
| Columns.Fill | w3m/etc.c:513-531 | the loops fill in the column of every position and return the width |
| Columns.Memo.CalcPosition | w3m/etc.c:493-536 | on a hit what the table holds, which is the column for the line it was made for; otherwise the fresh column; and what is remembered afterwards |
| Columns.MemoIsFreshIff | w3m/etc.c:503-506 | a remembered column is right for the same or a shorter line, except at the end of one cut inside a visible character |
| Columns.StaleColumn | w3m/etc.c:503-506 | a line on which the exception shows |
| Columns.ColumnsAscend | w3m/etc.c:522-531 | the column table never decreases |
| Columns.Memo.ColPos | w3m/etc.c:493-536 | inside an unmodified line the answer is fresh, hit or not |
| Columns.Memo.ColumnPos | w3m/etc.c:65-80 | the last character start whose column does not exceed the target, 0 if there is none |
| Columns.ColumnLen | w3m/etc.c:538-554 | a character boundary; a character ends within the column, as the loop counts it, exactly if it ends by there |
| Columns.WidthWithin | w3m/etc.c:513-531 | the true width of a line is not beyond the counted one unless it starts with a part of a wide character counted as nothing |
| Columns.TailFitsIff | w3m/etc.c:538-554 | over all lines that start with the same part of a character, the count bounds the width if and only if the part takes up no more than is counted for it |
| Columns.TailOverflows | w3m/etc.c:538-554 | for every such start and every limit, a line that is counted as the limit and is one column wider |
| Folding.Take | w3m/file.c:6553-6560 | what fits, or one whole character; and one more character would not fit |
| Folding.NextFragment | w3m/file.c:6549-6562 | one fragment: whole characters, true width, maximal within the limit |
| Folding.PrefixSums | w3m/file.c:6550-6566 | `bpos` and `bwidth` are the sums of the earlier lengths and widths |
| Folding.FragmentsJoin | w3m/file.c:6548-6575 | the fragments so far concatenate to the text so far |
| Folding.Buffer.AddNewLine2 | w3m/file.c:6475-6511 | the new line goes behind the current one and becomes current |
| Folding.Buffer.AddNewLine | w3m/file.c:6513-6576 | the fragments replace one line, concatenate to the original, split no character, carry prefix sums, are numbered in order, and by the count of `columnLen` are maximal and no wider than the limit unless a single character; no wider in truth either, unless the line starts with too wide a part of a character |
| Tokens.NothingShorter | w3m/etc.c:655-795 | no shorter text leads from a status back to normal text |
| Tokens.WhiteSpace | w3m/myctype.c:2-8 | which characters are white space |
| Tokens.CorrectIrrtag | w3m/etc.c:883-922 | terminates with a shortest text that closes what is open |
| Tokens.OnNormal | w3m/etc.c:811-834 | the branch that is back in normal text: look again, go on or stop, with the buffer of the reference |
| Tokens.OnChar | w3m/etc.c:808-876 | one round of the loop: when the character is looked at again, where the token stops, and the buffer and status of the reference |
| Tokens.TokenKeepsText | w3m/etc.c:797-881 | in `pre` mode the token is the old buffer and the consumed text with only adjacent "<>" pairs removed |
| Tokens.PlainTokenDiffersInSpaces | w3m/etc.c:824-824 | outside `pre` mode and comments only white space differs |
| Tokens.CommentLeavesNothing | w3m/etc.c:817-821 | outside `pre` mode a comment leaves an empty token |
| Tokens.AppendedCommentLeavesBuffer | w3m/etc.c:864-876 | when appending, it leaves the buffer as it was |
| Tokens.EmptyDeclarationLeavesNothing | w3m/etc.c:817-820 | "<!>" leaves nothing |
| Tokens.ReadToken | w3m/etc.c:797-881 | terminates, strictly advances on non-empty input, stops at the first end of a token (behind what closes it, or in front of a '<' in normal text) and agrees with a single pass that never steps back |
| TokenForms.QuotedValue | w3m/etc.c:678-702 | a quoted value leads back to the tag, whatever it holds but the quote |
| TokenForms.BareValueRuns | w3m/etc.c:684-710 | a bare value goes on up to white space or '>' |
| TokenForms.CommentGoesOn | w3m/etc.c:727-788 | a comment goes on up to a '>' behind two hyphens, with only white space between |
| TokenForms.MarkupIsToken | w3m/etc.c:797-881 | markup that stays open up to the '>' that closes it is the token, and nothing shorter is |
| TokenForms.ReadTag | w3m/etc.c:797-881 | a tag with any quoted and bare values is exactly one token, in every mode |
| TokenForms.ReadComment | w3m/etc.c:797-881 | in `pre` mode so is a comment |
| TokenForms.ReadDeclaration | w3m/etc.c:797-881 | and a declaration |
| TokenForms.ReadText | w3m/etc.c:797-881 | text in front of a '<' is one token, with blanks for white space outside `pre` mode |
| TokenForms.LiteralBracket | w3m/etc.c:849-856 | a '<' in front of anything that begins no tag is text |
| TokenForms.EntityRuns | w3m/etc.c:711-725 | an entity goes on through letters, digits, '#' and '_', and ends at ';' |
| Tokens.ReadAllTokens | w3m/etc.c:797-881 | repeated calls in `pre` mode cover the text: the tokens together, taken one by one or appended to one buffer, are the text but for adjacent "<>" pairs, and the last status is that of a single pass |
| Paths.CleanIsIdempotent | w3m/indep.c:155-216 | the clean form of every path, absolute or relative, is a fixed point |
| Paths.CleanAbsolute | w3m/indep.c:155-216 | for an absolute path it is absolute and the usual component-stack evaluation: "." and empty components dropped, ".." pops, trailing slash kept |
| Paths.RelativeFollowsIff | w3m/indep.c:155-216 | for a relative path it is the evaluation on the stack (".." stays with nothing or ".." on top) if and only if the first component is not "." and, unless that is "..", the path never goes up from it |
| Paths.DotIsKept | w3m/indep.c:195-199 | "./a" is left as it is |
| Paths.RelativeDeparts | w3m/indep.c:175-192 | going up from a sole first component makes the path absolute, or leaves one character at the end |
| Paths.CleanupName | w3m/indep.c:155-216 | in place: the clean form of every path, for an absolute one the component-stack evaluation, never longer than the input |
| Quoting.FormRoundTrip | w3m/indep.c:622-685 | form unquoting after form quoting is the identity on all byte strings (section 8.2.1 of RFC 1866) |
| Quoting.FileRoundTrip | w3m/indep.c:569-619 | a file name comes back without its line breaks |
| Quoting.UrlQuoteIsIdempotent | w3m/indep.c:545-566 | quoting a URL twice is quoting it once |
| Quoting.QuotedBytes | w3m/indep.h:22-33 | the bytes each mask selects, as its comment names them |
| Quoting.FormIsSafe | w3m/indep.c:622-649 | a quoted form holds only letters, digits and _ $ - . % + |
| Quoting.UrlIsPrintable | w3m/indep.c:545-566 | a quoted URL holds no control bytes, blanks or bytes beyond ASCII |
| Quoting.FileIsSafe | w3m/indep.c:569-590 | nor does a quoted file name, and none of # & + : ? |
| Quoting.SafeIsKept | w3m/indep.c:545-649 | a byte is left alone exactly if it needs no quoting |
| Quoting.SafeUnquoting | w3m/indep.c:668-676 | safe unquoting leaves escapes of ASCII bytes that a file name would have quoted |
| Quoting.NotAnEscape | w3m/indep.c:652-685 | outside forms a plus stays, and a percent sign without two digits |
| Quoting.NulIsDropped | w3m/indep.c:607-608 | an escaped NUL is dropped from a file name |
| Quoting.SmallDigits | w3m/indep.c:540-543 | escapes in small letters mean the same |
| Quoting.UrlRoundTripIff | w3m/indep.c:545-566 | URL quoting is undone exactly on texts without an escape |
| Quoting.EscapeIsLost | w3m/indep.c:545-566 | "%41" comes back as "A" |
| Quoting.LineBreakIsLost | w3m/indep.c:607-608 | a file name with a line break comes back without it |
| Quoting.Xdigit | w3m/indep.c:538-538 | its digit value is the number, and it is never quoted itself |
| Quoting.Quote | w3m/indep.c:545-566 | the copy-on-first-change loop replaces every byte by its code |
| Quoting.UrlQuote | w3m/indep.c:545-566 | printable, a fixed point of itself, and undone exactly if the text held no escape |
| Quoting.FileQuote | w3m/indep.c:569-590 | safe, and undone exactly if the name has no line break |
| Quoting.FileUnquote | w3m/indep.c:593-619 | the loop computes the reference decoder, dropping escaped NUL and line breaks |
| Quoting.StrFormQuote | w3m/indep.c:622-649 | safe, and undone by form unquoting |
| Quoting.StrUrlUnquote | w3m/indep.c:652-685 | the loop computes the reference decoder, for forms or not, safe or not |
| Entities.GetEscapeChar | w3m/indep.c:407-470 | numeric, named and malformed references: the code or -1, and how far it reads |
| Entities.NamedReference | w3m/indep.c:444-470 | a known name between '&' and ';' stands for its code, whatever follows |
| Entities.DecimalReference | w3m/indep.c:431-442 | a decimal reference stands for the number it spells, for every number |
| Entities.HexadecimalReference | w3m/indep.c:418-430 | so does a hexadecimal one |
| Entities.LooseReference | w3m/indep.c:451-469 | lt, gt, amp, quot and nbsp stand for their codes even without ';', but not in front of '=' |
| Entities.LongNamesAreStrict | w3m/indep.c:451-467 | a name of more than four letters needs its ';' |
| Entities.AmpersandIsOptional | w3m/indep.c:414-415 | a reference is read the same whether or not its '&' was skipped before |
| Entities.UnknownNameStays | w3m/indep.c:462-487 | a reference by an unknown name stands for itself |
| Entities.LoneAmpersand | w3m/indep.c:444-447 | so does an ampersand in front of neither a letter nor '#' |
| Entities.LoneNumberSign | w3m/indep.c:432-435 | and "&#" in front of neither a digit nor an 'x' |
| Entities.ControlCodesAreBlank | w3m/entity.c:41-46 | references to control codes are blanks |
| Entities.OtherCodes | w3m/entity.c:41-57 | ASCII codes are characters, those from the no-break space on are converted |
| Entities.GetEscapeCmd | w3m/indep.c:472-487 | the text of the code, or the bytes themselves |
| Entities.HtmlUnquote | w3m/indep.c:513-536 | terminates and computes the reference decoder |
| Entities.HtmlRoundTrip | w3m/indep.c:490-536 | unquoting after quoting is the identity on every text |
| Entities.QuotedIsHarmless | w3m/indep.c:490-510 | quoted text has no '<', '>' or '"' |
| Entities.HtmlQuote | w3m/indep.c:490-510 | every byte replaced by its code, harmless, and undone by unquoting |
| Streams.FirstLineEnds | w3m/istream.c:264-312 | a line ends at the first LF, CR or CRLF; only the last can lack it |
| Streams.LinesConcat | w3m/istream.c:264-312 | the lines concatenate to the whole input |
| Streams.Stream.DoUpdate | w3m/istream.c:38-48 | a refill changes nothing of what is to come; the end is declared only when nothing is |
| Streams.Stream.Getc | w3m/istream.c:195-205 | the next byte, or 0 at the end |
| Streams.Stream.Undogetc | w3m/istream.c:207-219 | as long as one is buffered the last byte is taken back, and comes again unless the end has been declared |
| Streams.Stream.MyGets | w3m/istream.c:264-312 | the first line of what is to come, for every chunking, CRLF across a refill included |
| Streams.Stream.Read | w3m/istream.c:314-337 | the next bytes in order, at least the buffered ones asked for; loses the rest exactly when the buffered count equals the request and input was left |
| Streams.EarlyEnd | w3m/istream.c:323-330 | one byte buffered, one to come, one asked for: the second is never delivered |
| Streams.ReadAllLines | w3m/istream.c:264-312 | reading to the end gives the same lines for every chunking |
| HashTable.HashFunc | w3m/hash.c:6-21 | rotate and add over 32 bits, from the first character to the last |
| HashTable.HashStepIsOneToOne | w3m/hash.c:11-17 | a round loses no bit: different words lead to different words |
| HashTable.HashOfOne | w3m/hash.c:6-21 | the hash of one character is its code, with the sign extended |
| HashTable.Table.Lookup | w3m/hash.h:40-51 | the item of the key, if and only if it has one |
| HashTable.Table.Put | w3m/hash.h:53-70 | the key maps to the value, every other key to what it did |
| HashTable.Table.Get | w3m/hash.h:72-82 | the value of the key, or the given default |
| History.HistoryIsByLastUse | w3m/history.c:150-172 | after any run of pushes: the distinct strings in the order of their last use |
| History.PushAll | w3m/history.c:150-172 | a new history driven through a run of `pushHashHist` holds exactly these |
| History.WithoutAt | w3m/history.c:158-168 | taking out the one node found is removing the string |
| History.Hist.PushHist | w3m/history.c:130-146 | the list, linked both ways, ends in a new node |
| History.Hist.Unlink | w3m/history.c:158-168 | the list, linked both ways, without one node |
| History.Hist.GetHashHist | w3m/history.c:174-187 | the live node of the string, if and only if it is listed; the table is built when first needed |
| History.Hist.PushHashHist | w3m/history.c:150-172 | remove if present, then append; list, count and table agree and no string is listed twice |
| Ping.SlotIsModulo | ping/ping.c:149-150 | byte and bit together are the number modulo 16384 |
| Ping.WrapKeepsSlot | ping/ping.c:1097-1101 | a sixteen-bit sequence number has the slot of its probe |
| Ping.Table.Set | ping/ping.c:151-151 | exactly the slot of the number is added |
| Ping.Table.Clr | ping/ping.c:152-152 | exactly the slot of the number is removed |
| Ping.Table.Tst | ping/ping.c:153-153 | whether the slot is set |
| Ping.SentAgrees | ping/ping.c:962-965 | a transmission keeps the relation between table, counters and what was answered |
| Ping.RepliedAgrees | ping/ping.c:1077-1102 | a reply keeps it too; it is taken for a duplicate exactly if its probe was answered |
| Ping.Run.Transmit | ping/ping.c:962-965 | one more transmission, its slot cleared |
| Ping.Run.Reply | ping/ping.c:1077-1102 | counted once as received or repeated, rightly so if it is timely |
| Ping.Run.Totals | ping/ping.c:1077-1102 | nreceived + nrepeats is the number of replies; nreceived is at most ntransmitted for honest replies, and exactly the number of probes answered for timely ones |
| PingSchedule.Advance | ping/ping.c:978-982 | at least one interval on, and the first grid point not more than 100 ms behind |
| PingSchedule.CatchUp | ping/ping.c:978-982 | the loop terminates there |
| PingSchedule.FirstSend | ping/ping.c:967-982 | the first transmission sets the grid |
| PingSchedule.LaterSend | ping/ping.c:967-982 | next_tx stays on the grid, not more than 100 ms behind nor two intervals ahead |
| PingSchedule.TransmissionMoves | ping/ping.c:978-982 | a transmission moves next_tx by at least one interval, unless that is more than one interval ahead already; then it stays |
| PingSchedule.RateBound | ping/ping.c:762-769 | up to time t at most (t - first_tx + 100 us)/interval + 1 transmissions |
| PingSchedule.PhaseIsKept | ping/ping.c:968-971 | once the clock shows a second, the grid is never set again |
| PingSchedule.Pacer.Pinger | ping/ping.c:967-982 | a transmission keeps the schedule in phase |
| PingSchedule.Pacer.Poll | ping/ping.c:762-769 | sends exactly when packets and time are left and one is due, or in flood mode after a reply |
| Checksum.TwoFoldsSuffice | ping/ping.c:1320-1322 | two folds of a 32-bit sum give its one's complement value |
| Checksum.SumBound | ping/ping.c:1304-1318 | the accumulator is bounded by 65535 per word |
| Checksum.PingCksum | ping/ping.c:1301-1324 | with wrap-around, and without it up to 131074 bytes: the complement of the one's complement sum |
| Checksum.PingBoundIsTight | ping/ping.c:1304-1318 | two bytes more, all ones, make the accumulator wrap |
| Checksum.InCksum2 | traceroute/traceroute.c:1640-1676 | the one's complement sum with a seed, below 2^31 up to 65534 bytes |
| Checksum.InCksum | traceroute/traceroute.c:1630-1635 | its complement |
| Checksum.SeedingIsSumming | traceroute/traceroute.c:1640-1676 | seeding with the result for an even prefix equals summing the whole |
| Checksum.ChecksOutIff | traceroute/traceroute.c:1377-1383 | a packet re-checksums to 0 exactly with its checksum stored, or 0xffff where that is 0 |
| Checksum.StoreChecksum | traceroute/traceroute.c:1377-1383 | in place: nothing but the field changes, it is never zero, and the packet re-checksums to 0 |
| Checksum.ByteOrderDoesNotMatter | traceroute/traceroute.c:1640-1676 | hosts of either byte order store the same two bytes (section 2 of RFC 1071) |

## Left out

- Floating point: matrix.c over exact reals, `Tiny` any positive number (at 0 a zero scale would give an infinite quotient), and the quotient 0/0 of its pivot search as "no candidate"; ping's times in whole nanoseconds.
- Integer widths elsewhere: `ntransmitted`, line and column numbers, and the value of a numeric character reference are unbounded; `seqmap` holds numbers of any size, not `short`.
- Storage: `Str` and C strings are sequences of bytes without capacity; allocation always succeeds; the signedness of `char` in `hashfunc` is fixed to signed.
- Anchors.AnchorList.PutAnchor: requires the list to be sorted, which is what the calls themselves keep.
- Columns.Memo.CalcPosition: requires a hit to ask within the storage of the table, beyond which the source would read foreign memory.
- FieldShift.ShiftAnchorPosition: requires the list to be ordered, for its binary search, and every anchor whose start moves to carry a number of the marker list, since the source would read and write outside the list otherwise.
- Folding: the lines of a buffer are a sequence, not linked records, and the colour of a cell is not modelled.
- Redirect: `real_file` and `is_nocache` of a URL, which name nothing and are not compared.
- FieldShift.UpdateField: one-line fields only; the rows of a text area, check boxes and menus are not modelled, nor the `invalid` flag of a marker.
- Streams: `StrISgets`, encoded streams and the stream kinds other than the plain reader are not modelled; an error of the reader counts as the end.
- Quoting and Entities: `shell_quote`; the entity table beyond the four names `html_quote` uses and the conversion of codes beyond ASCII are parameters.
- History: `unshiftHist`, the cursor (`current`) and the history files; mixing `pushHist` into a history kept with `pushHashHist`, which the source forbids.
- Checksum: the IP header checksum of traceroute, whose field is not zeroed between probes.
- The renderer, table layout, parsing of tags, cookies, SSL, FTP, mailcap, CGI, images, frames, menus, terminal drawing, and all sockets, signals, name lookup, options and printing of ping and traceroute: I/O, user interface or foreign libraries.
- The elinks tree and the other tools of the repository.
