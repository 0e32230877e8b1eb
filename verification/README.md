# Verified models of library code used by the system monitor

The repository carries third-party libraries beside its own monitor code. This project models the parts
of them that hold the most algorithm, and proves what they are for:

- **Trees** (`libevent/include/tree.h`): the red-black and the splay tree macros, for any total order.
  Nodes are heap objects; each write is one update of a map from nodes to their fields (`Snap`), and a
  tree with a place in it is a subtree and a path up to the root (`Focus`). Insertion, deletion, look-up
  and iteration are proved to be the operations of an ordered set, with all invariants of the header's
  own comment and its height bound. For splay trees the Balance Theorem of that comment is proved as well
  (`SplayRuns.BalanceTheorem`): however they are chosen, m operations on an empty tree of which n insert meet
  at most 5m times lg(n + 1), rounded up, nodes. `Ordering`, `Rb*`, `Splay*` and `Products`.
- **JSON** (`jsoncpp`): lexer, recursive-descent reader, both string writers, number and string
  conversion, and the value type with its order. `JsonGrammar` says what reading a document yields;
  the class in `JsonReader` is proved to compute that. `JsonSyntax` says, apart from any reader, which
  texts are JSON (RFC 8259) and what they denote, in two dialects: what the RFC says, and a loose one that
  also gives strings with unpaired surrogates a meaning. `JsonConform` has the theorems on the reader:
  which JSON texts it accepts and rejects (`Accepted`, `Rejected`), that its values are those of the RFC
  where the RFC gives one (`RfcConforms`), and what it makes of the others (`DocumentConforms`), each if
  and only if a condition holds that the tokens of the text decide. `JsonThrough` has the theorem on comments:
  where they are allowed they are white space, except in two places. `JsonDeviations` has one text for each
  way to depart from the RFC. Both writers are proved to print JSON texts for their value (`JsonReadBack`), so the
  reader undoes them, and `JsonLayout` says how the styled writer breaks and indents its lines. `JsonOrder`
  says which order `operator<` is. `JsonSpans` is about the source offsets of values. `Json*`.
- **BatchAllocator** (`jsoncpp/include/json_batchallocator.h`): pages, slots and the free list threaded
  through released blocks.
- **TailQueue** (`libevent/include/queue.h`): the tail queue with its back links to forward pointers.
- **TrailingSpace** (`database/mysql/include/m_string.h`): the word-at-a-time scan for trailing spaces.
- **ConnectString** (`SysMonitor/db_utility.cpp`, `SysMonitor/port.cpp`): connect strings carved in place.

`dafny verify dfyconfig.toml` checks everything.

## Modelling decisions

- Bytes are integers below 256 and documents sequences of them, with a readable zero behind the last.
  A zero byte inside a document is the end marker for the lexer, as in the code, but comments and strings
  read over it. Whether strings are valid UTF-8 is looked at neither by the reader nor in `JsonSyntax`.
- The smallest 64-bit integer is negated in two's complement; the C++ expression overflows there.
- Doubles are Dafny reals. The scanner for them is an arbitrary function given to the reader, and what
  the writers print for one is an arbitrary function too (`JsonRender.FORMAT_REAL`).
- An object is the in-order content of its `std::map`; an array is dense.
- Strings that pass through `c_str()` end at their first NUL. This holds for the values and names read,
  while the test for an empty name looks at the untruncated one.
- The stack of value pointers is a stack of values; a child is written back into its parent when it is
  popped. Offsets of elements and members are kept in a tree parallel to the value.
- A queue head and an element entry are one class, since the macros rely on their having the same layout;
  that a compiler lays them out alike is assumed with them.
- `ConnectStrings.overrun` is set where the code would leave a buffer, about which C says nothing: the
  result is then `Overrun`, and nothing is claimed of the fields.
- The layout of a styled text is stated for values whose reals are printed without blanks and line feeds
  (`JsonLayout.RealsSolid`), as the writer looks at the last character it wrote to see where it is.
- What a splay costs is counted in nodes its loop looks at; `rounds` of a splay tree counts the rounds of all
  its loops, which are no more than these nodes.
- Size arithmetic of the pretty printer (`size * 3`, line lengths) is unbounded.

## Where the code differs from what one may expect

- The reader rejects some JSON texts: those with an escaped first half of a surrogate pair that has no
  escape behind it, and those with a number the scanner refuses (`JsonConform.Rejected`). It gives a value
  of its own to strings that RFC 8259 leaves open (section 8.2): a first half takes whatever escape is
  behind it for a second half, and a second half may stand alone. A string is cut off at an escaped NUL.
  `JsonDeviations.HalfRejected`, `MergedWithLetter`, `LoneSurrogate` and `CutAtNul` are texts for each.
- The reader takes more than JSON. The tokens of such a text are not regular (`JsonConform.Regular`): there
  is a comment, a comma before a closing brace, a literal outside the grammar, or something behind the
  value. Each is possible (`JsonDeviations`): comments in containers pass even when they are not allowed,
  and behind a comment after an object member any token but a closing brace passes for the comma; a
  trailing comma may follow a member with the empty name; a lone minus is zero and leading zeros are
  digits; control characters may stand in strings unescaped; and nothing behind the value is looked at.
- Where comments are allowed, one between a name and its colon, or one that is all there is between the
  brackets of an array, still makes the text fail (`JsonDeviations.CommentBeforeColon`,
  `JsonThrough.CommentAloneInArray`); in all other places they are white space, which is exact
  (`JsonThrough.CommentsAreSpace`).
- The order of values is a strict total order only while no container has 2^31 entries or more
  (`JsonValue.OrdersUpTo`).
- A batch whose page is not a whole number of blocks is never found full (`BatchAllocator.PageMustDivide`).
- The header bounds the total access time of all operations on a splay tree. The walk of SPLAY_NEXT behind its
  splay is not part of what that bound covers: it may be as long as the tree, again and again
  (`SplayRuns.WalkRepeats`).
- Splay removal returns the pointer it was given. It is not the node that was taken out when it was not in
  the tree (`SplayTree.RemoveByKey`).
- The length check of connect strings lets 256 bytes into a buffer of 256 (`ConnectString.LengthCheck`). A
  parameter name that ends at byte 254 or later puts the look-up of its value behind the copy
  (`ConnectString.ReadableMeans`); strings below 254 bytes are safe (`ConnectString.ShortIsSafe`).

## Model

| member | source | states |
|---|---|---|
| RbTree.Head.Insert | libevent/include/tree.h:577-606 | keeps search order, colours, black height and parent links; adds exactly the new node, or on an equal key returns the node that has it, which for a node of the tree is that node, and leaves every link and colour as it was; at most 2h loop steps in a tree of height h |
| RbTree.Head.Remove | libevent/include/tree.h:510-575 | keeps all invariants, removes exactly that node from the order of the others, and returns the node asked for even when its successor was moved; at most 2h loop steps |
| RbTree.Head.InsertColor | libevent/include/tree.h:390-432 | from any red focus the loop ends in a red-black tree with the same order; a grandparent exists whenever it is used; no more rounds than the focus is deep |
| RbTree.Head.RemoveColor | libevent/include/tree.h:434-508 | from any place that is one black node short the loop ends in a red-black tree with the same order; every sibling it follows exists; at most one round more than the place is deep |
| RbTree.Head.RemoveLeft | libevent/include/tree.h:440-471 | one round with the short subtree on the left: closer to the root, or done |
| RbTree.Head.RemoveRight | libevent/include/tree.h:472-503 | the mirrored round |
| RbTree.Head.Absorb | libevent/include/tree.h:454-470 | a red nephew ends the search for a black node, at the root of the tree |
| RbTree.Head.FixLeft | libevent/include/tree.h:397-412 | one round of the insertion loop under a left parent: order kept, depth smaller |
| RbTree.Head.FixRight | libevent/include/tree.h:413-429 | the mirrored round |
| RbTree.Head.FixUncle | libevent/include/tree.h:399-404 | recolouring parent, uncle and grandparent moves the red node two levels up |
| RbTree.Head.BlackenRoot | libevent/include/tree.h:431 | the final write makes the tree red-black |
| RbTree.Head.RotateLeft | libevent/include/tree.h:335-353 | links, parent links and root of any subtree anywhere in the tree after the rotation |
| RbTree.Head.RotateRight | libevent/include/tree.h:355-373 | the mirrored rotation |
| RbTree.Head.Find | libevent/include/tree.h:608-624 | finds a node with the key exactly when there is one, in at most height-many steps |
| RbTree.Head.FindPlace | libevent/include/tree.h:584-594 | the search of an insertion: a node with the key, or the empty place between its neighbours in key order, in at most height-many steps |
| RbTree.Head.HeightIsLogarithmic | libevent/include/tree.h:46-54 | 2^h <= (n+1)^2 for every tree the operations can reach, so all steps counted in terms of h are logarithmic |
| RbTree.Head.MinMax | libevent/include/tree.h:647-660 | the first or the last node in order, null exactly for the empty tree, in at most height-many steps |
| RbTree.Head.Next | libevent/include/tree.h:626-645 | the node that follows in order, through parent links where there is no right child, in at most height-many steps |
| RbTree.Head.NextAbove | libevent/include/tree.h:633-643 | climbing parent links stops at the first node behind the subtree in order |
| RbTree.Head.Foreach | libevent/include/tree.h:672-675 | visits every node once, in order, and ends |
| RbTree.Head.Unlink | libevent/include/tree.h:559-570 | a node with one child at most is replaced by that child, parent links included |
| RbTree.Head.Replace | libevent/include/tree.h:539-550 | a node takes another's place, fields and neighbours' links included |
| RbTree.Head.SpliceSuccessor | libevent/include/tree.h:519-557 | the successor is cut out and put in place of the removed node, also when it is its right child; the order only loses the removed node |
| RbTree.Head.CloseUp | libevent/include/tree.h:571-573 | only a black node that was cut out calls for recolouring |
| RbBalance.HeightBound | libevent/include/tree.h:46-54 | the documented height bound for every red-black tree |
| RbBalance.SoundSize | libevent/include/tree.h:46-54 | a tree of black height n has at least 2^n - 1 nodes and at most twice that height, one more under a red root |
| RbBalance.RotationInPlace | libevent/include/tree.h:335-373 | a rotation at any place keeps the order of the whole tree |
| RbBalance.HeightIsUnique | libevent/include/tree.h:49-50 | a tree has one black height |
| RbShape.Rotation | libevent/include/tree.h:335-373 | what a rotation does to memory is a rotation of the tree, on either side, below the root or at it |
| RbShape.Paint | libevent/include/tree.h:326-329 | a colour write changes the colour of one node of the tree |
| RbFix.RecolourFocus | libevent/include/tree.h:399-404 | the three colour writes on memory |
| RbFix.RecolourSound | libevent/include/tree.h:399-404 | black counts after recolouring |
| RbFix.RecolourOrder | libevent/include/tree.h:399-404 | recolouring and going up keep the order |
| RbFixInsert.InnerStep | libevent/include/tree.h:405-410 | the rotation of an inner red child keeps counts and order |
| RbFixInsert.OuterStep | libevent/include/tree.h:411-412 | the last rotation repairs the red pair, with the same order |
| RbFixRemove.SiblingExists | libevent/include/tree.h:441-446 | a place that is short has a sibling, and a red one has two black children |
| RbFixRemove.LowerStep | libevent/include/tree.h:442-446 | a red sibling is rotated up; the new sibling is black |
| RbFixRemove.ReddenStep | libevent/include/tree.h:447-453 | reddening a sibling without red children moves the shortage up |
| RbFixRemove.TurnStep | libevent/include/tree.h:455-463 | a red near nephew becomes a red far nephew |
| RbFixRemove.LiftStep | libevent/include/tree.h:464-470 | with a red far nephew the shortage is gone and counts above are as before |
| RbFixRemove.BlackenStep | libevent/include/tree.h:506-507 | blackening at the root or at a red node completes the removal |
| RbLink.Attach | libevent/include/tree.h:595-603 | a new leaf at the empty place of a search |
| RbLink.Excise | libevent/include/tree.h:559-570 | cutting a node out of memory cuts it out of the tree |
| RbLink.Transplant | libevent/include/tree.h:539-550 | moving a node into another's place in memory does so in the tree |
| RbLink.SpliceOrder | libevent/include/tree.h:519-557 | where the successor stands in the order |
| RbOrder.InsertOrder | libevent/include/tree.h:585-594 | the empty place of a search is where the key belongs |
| RbOrder.RemoveOrder | libevent/include/tree.h:510-575 | order without the removed node |
| RbOrder.SearchMiss | libevent/include/tree.h:585-594 | a search that ends in an empty place proves the key absent |
| RbOrder.NextInOrder | libevent/include/tree.h:629-632 | the leftmost node on the right is next in order |
| SplayTree.Head.Splay | libevent/include/tree.h:202-235 | ends, keeps the order, brings to the root the key's node, or its neighbour in order when there is none, leaves the tree SplayDepth.Splayed says, and takes at most as many rounds as a search would meet nodes |
| SplayTree.Head.SplayLeft | libevent/include/tree.h:212-221 | one round for a smaller key: parts and order kept, middle tree smaller or search over |
| SplayTree.Head.SplayRight | libevent/include/tree.h:222-231 | the mirrored round |
| SplayTree.Head.RotateRight | libevent/include/tree.h:81-85 | rotation of the middle tree, the spines untouched |
| SplayTree.Head.RotateLeft | libevent/include/tree.h:87-91 | the mirrored rotation |
| SplayTree.Head.LinkLeft | libevent/include/tree.h:93-97 | the root joins the right spine and its left child takes over |
| SplayTree.Head.LinkRight | libevent/include/tree.h:99-103 | the root joins the left spine and its right child takes over |
| SplayTree.Head.Assemble | libevent/include/tree.h:105-110 | the four writes join spines and middle into one tree of the same nodes |
| SplayTree.Head.HangTips | libevent/include/tree.h:106-107 | the root's subtrees end the two spines; all three parts stay intact |
| SplayTree.Head.Find | libevent/include/tree.h:121-130 | exact look-up; the order stays; the tree behind it and the rounds its splay takes are those the Balance Theorem is about |
| SplayTree.Head.Insert | libevent/include/tree.h:157-179 | set insertion; an equal key leaves the set as it was and returns the node that has it, which for a node of the tree is that node; the tree behind it and its rounds are those of SplayRuns |
| SplayTree.Head.Remove | libevent/include/tree.h:181-200 | exact set deletion by key, null exactly for an absent key; the pointer returned is the argument, which is the node removed if and only if it was in the tree; the tree behind it and its rounds are those of SplayRuns |
| SplayTree.RemoveByKey | libevent/include/tree.h:181-200 | a node outside the tree with the key of the one inside: the one inside is removed, the other returned |
| SplayTree.Head.JoinHalves | libevent/include/tree.h:188-196 | the re-join: the splayed left half has no right child |
| SplayTree.Head.MinMax | libevent/include/tree.h:240-271 | the end node comes to the root, null exactly for the empty tree; the tree behind it and its rounds are those of SplayRuns |
| SplayTree.Head.SplayMin | libevent/include/tree.h:247-257 | the loop towards the minimum |
| SplayTree.Head.SplayMax | libevent/include/tree.h:258-268 | the loop towards the maximum |
| SplayTree.Head.Next | libevent/include/tree.h:132-144 | splays the node to the root and returns its successor, after a walk as long as the left edge of the right subtree |
| SplayTree.Head.Foreach | libevent/include/tree.h:285-288 | visits every node once, in order, although each step rearranges the tree |
| SplayOrder.NearestDecides | libevent/include/tree.h:120-130 | the root alone tells whether the key is in the tree |
| SplayOrder.JoinNearest | libevent/include/tree.h:211-234 | what the loop has narrowed down makes the root the nearest node |
| SplayOrder.NarrowRight | libevent/include/tree.h:212-221 | linking away a larger root loses no candidate |
| SplayOrder.NarrowLeft | libevent/include/tree.h:222-231 | linking away a smaller root loses no candidate |
| SplayOrder.NoRightChild | libevent/include/tree.h:189-195 | a tree splayed for a key above all its nodes has no right child |
| SplayOrder.SplitOrder | libevent/include/tree.h:166-177 | splitting a splayed tree around a new node inserts it in order |
| SplayOrder.RootAt | libevent/include/tree.h:132-144 | after splaying a node of the tree it is the root |
| SplayShape.Rotation | libevent/include/tree.h:81-91 | rotation on memory and the three parts |
| SplayShape.JoinRoot | libevent/include/tree.h:105-110 | what the header links hold when the parts are joined |
| SplayShape.CloseOrder | libevent/include/tree.h:105-110 | order of a closed spine |
| SplayShape.LinkOrder | libevent/include/tree.h:93-103 | linking keeps the order of the whole |
| SplayDepth.SplayHalvesTheWay | libevent/include/tree.h:34-37 | partly rebalances: a node met on the way ends at a depth of half the number of nodes met, and a half more, at most |
| SplayDepth.SplayedHalves | libevent/include/tree.h:202-235 | the same for every state of the loop, with the two spines grown so far |
| SplayCost.SplayedIsPart | libevent/include/tree.h:202-235 | what a splay leaves, from the bottom up: the nodes below the key, the root, the nodes above it |
| SplayCost.SplayIsPaid | libevent/include/tree.h:43-45 | 2 to the number of nodes met, times the potential of the two parts, is at most the potential of the tree times the square of its size |
| SplayCost.PaysAlike | libevent/include/tree.h:213-220 | a rotation and a link pay for both nodes met |
| SplayCost.PaysApart | libevent/include/tree.h:212-231 | so do two links, one to each side |
| SplayCost.PaysMixed | libevent/include/tree.h:212-231 | and a link to one side behind which a rotation and a link to the other follow |
| SplayRuns.OperationAffords | libevent/include/tree.h:43-45 | each search, insertion, deletion and search for an end pays for itself up to the fifth power of a size that is never exceeded |
| SplayRuns.RunAffords | libevent/include/tree.h:43-45 | and so do all runs of them |
| SplayRuns.BalanceTheorem | libevent/include/tree.h:43-45 | the Balance Theorem: from any tree of n nodes, m operations meet at most k(n + 5m) nodes, if there are never 2^k nodes or more |
| SplayRuns.FromEmpty | libevent/include/tree.h:43-45 | from an empty tree, m operations of which n are insertions meet at most 5mk nodes, for every k with n + 1 <= 2^k |
| SplayRuns.RootStays | libevent/include/tree.h:132-144 | looking the root up again meets one node and changes nothing |
| SplayRuns.WalkRepeats | libevent/include/tree.h:132-144 | so the walk to a successor is not within that bound: for any order of nodes there is a tree on which it passes all of them, every time |
| JsonConform.Accepted | jsoncpp/src/json_reader.cpp:109-148 | a text is accepted, with regular tokens, if and only if it is a JSON text by the grammar of RFC 8259 whose literals can be read (a container under strictRoot) |
| JsonConform.Rejected | jsoncpp/src/json_reader.cpp:109-148 | a JSON text is rejected exactly when one of its literals cannot be read (a number the scanner refuses, a first half of a surrogate pair without an escape behind it), or it is a scalar and strictRoot is set |
| JsonConform.RfcConforms | jsoncpp/src/json_reader.cpp:109-148 | without escaped NULs: a text parses to v, its tokens regular and its surrogates paired, exactly when it is a JSON text that denotes v by RFC 8259 (a container under strictRoot) |
| JsonConform.DocumentConforms | jsoncpp/src/json_reader.cpp:109-148 | a text with regular tokens parses to v exactly when it is a JSON text for v in the loose dialect, which says how strings with unpaired surrogates and NULs are taken |
| JsonConform.ReaderConforms | jsoncpp/src/json_reader.cpp:150-221 | for a value anywhere in a document: tokens that denote v in the loose dialect stand from p to q exactly when reading from p gives v, stops at q and meets no comment, no comma before a closing brace and no literal outside the grammar |
| JsonConform.StringsAgree | jsoncpp/src/json_reader.cpp:611-662 | a string without NUL denotes in the RFC what it denotes in the loose dialect, if and only if its surrogates are paired |
| JsonTidy.ValueIsTidy | jsoncpp/src/json_reader.cpp:240-309 | the tokens of any value of the grammar: single tokens, no comma before a closing brace, brackets that close at the end and not before |
| JsonTidy.ReadsTexts | jsoncpp/src/json_reader.cpp:240-309 | tokens read from p on are the first ones of the list of all tokens |
| JsonShape.ValueHasForm | jsoncpp/src/json_reader.cpp:150-221 | what denotes a value keeps to the grammar, and its literals can be read |
| JsonShape.FormDenotes | jsoncpp/src/json_reader.cpp:150-221 | what keeps to the grammar and has literals that can be read denotes a value |
| JsonShape.ValueCarries | jsoncpp/src/json_reader.cpp:150-221 | what denotes a value in one dialect denotes it in another that agrees on its strings |
| JsonShape.LiteralExists | jsoncpp/src/json_reader.cpp:507-553 | a text denotes a scalar exactly when it is a literal of the grammar that can be read |
| JsonComplete.ReadsValue | jsoncpp/src/json_reader.cpp:150-221 | tokens that denote a value are read as that value and no further, under any features |
| JsonComplete.ReadsItems | jsoncpp/src/json_reader.cpp:460-495 | tokens of elements are read as those elements of an array |
| JsonComplete.ReadsMembers | jsoncpp/src/json_reader.cpp:405-458 | tokens of members are read as the map they denote, a later member of the same name winning |
| JsonComplete.ReadsScalar | jsoncpp/src/json_reader.cpp:150-221 | a literal is read as what it denotes, whatever follows it |
| JsonSound.ValueRead | jsoncpp/src/json_reader.cpp:150-221 | a value read without oddities was denoted by the tokens read |
| JsonSound.ElementsRead | jsoncpp/src/json_reader.cpp:460-495 | elements read without oddities were denoted by tokens with commas between them |
| JsonSound.MembersRead | jsoncpp/src/json_reader.cpp:405-458 | members read without oddities were denoted by tokens with commas between them, and make up the map they denote |
| JsonSound.AfterRead | jsoncpp/src/json_reader.cpp:443-455 | behind a member, without oddities, stands the closing brace, or a comma and more members |
| JsonLiterals.NumberExact | jsoncpp/src/json_reader.cpp:507-553 | a text in the number grammar is decoded as the number it denotes |
| JsonLiterals.MeaningDecodes | jsoncpp/src/json_reader.cpp:611-662 | decoding any string token, of the grammar or not, gives what it denotes in the loose dialect, or fails exactly when it denotes nothing |
| JsonLiterals.StringAccepted | jsoncpp/src/json_reader.cpp:611-691 | a string token is rejected exactly when an escape is none of the grammar's, or an escaped first half of a surrogate pair, counted from the left, has no escape behind it to go with |
| JsonLiterals.MeaningExists | jsoncpp/src/json_reader.cpp:664-691 | a string denotes something exactly when its escapes are those of the grammar and its surrogates are coupled: for the RFC each half with the other |
| JsonLiterals.StrictIsLoose | jsoncpp/src/json_reader.cpp:664-691 | what the RFC says a string is, the loose dialect says too |
| JsonLiterals.CharsEnd | jsoncpp/src/json_reader.cpp:393-403 | the closing quote of a string of the grammar is where reading it stops |
| JsonLiterals.HexTable | jsoncpp/src/json_reader.cpp:701-714 | what the three ranges give is the place in the table of sixteen digits, in either case, and nothing for other characters |
| JsonLiterals.CodeSpelled | jsoncpp/src/json_reader.cpp:693-719 | four digits of that table that spell a code below 0x10000 are read as that code |
| JsonLiterals.EscapeRead | jsoncpp/src/json_reader.cpp:648-653 | a \u escape that spells a code outside the surrogates is decoded as the UTF-8 form of that code |
| JsonLiterals.EscapeTable | jsoncpp/src/json_reader.cpp:623-647 | the escapes of one letter are those of the table that RFC 8259 gives, and stand for the same characters |
| JsonSyntax.Spelling | jsoncpp/src/json_reader.cpp:232-309 | the words, the brackets and the white space, each spelled out |
| JsonComments.StarEndIs | jsoncpp/src/json_reader.cpp:366-373 | a comment of the C kind ends behind the first star and slash, or there is none |
| JsonComments.LineEndIs | jsoncpp/src/json_reader.cpp:375-382 | one of the C++ kind ends behind the first carriage return or line feed, or at the end of the document |
| JsonComments.SlashReads | jsoncpp/src/json_reader.cpp:332-342 | a slash begins a comment exactly when a whole comment, or a last line that is one, stands there |
| JsonComments.CommentedSkims | jsoncpp/src/json_reader.cpp:223-231 | a text of tokens with comments and white space between them is read as those tokens |
| JsonThrough.ValueSkim | jsoncpp/src/json_reader.cpp:150-221 | where comments are allowed, tokens with comments between them are read as the value they denote, if and only if the comments are placed where the reader looks for them |
| JsonThrough.CommentsParse | jsoncpp/src/json_reader.cpp:109-148 | a JSON text with comments is accepted exactly when its literals can be read, no comment stands before a colon or alone between brackets, and strictRoot allows the root |
| JsonThrough.CommentsAreSpace | jsoncpp/src/json_reader.cpp:109-148 | it then parses to what the text with white space in their place parses to, and fails otherwise |
| JsonThrough.PlacedCommentsAreSpace | jsoncpp/src/json_reader.cpp:109-148 | so with comments in the places that suit, of either kind, in front of the value or inside it, they are white space |
| JsonThrough.CommentInFront | jsoncpp/src/json_reader.cpp:223-231 | for instance any comment in front of an empty array |
| JsonThrough.CommentNotAllowed | jsoncpp/src/json_reader.cpp:150-221 | where comments are not allowed, one in front of the value fails |
| JsonThrough.CommentAloneInArray | jsoncpp/src/json_reader.cpp:460-470 | any comment alone in an array makes the text fail, although comments are allowed |
| JsonTokens.InterleavedReads | jsoncpp/src/json_reader.cpp:240-309 | a text of tokens and white space is read as those tokens, up to white space |
| JsonTokens.ReadsInterleaved | jsoncpp/src/json_reader.cpp:240-309 | tokens read up to white space at the end make up the text, white space apart |
| JsonDeviations.BareMinus | jsoncpp/src/json_reader.cpp:518-552 | [-] is read as an array of zero, though it is no JSON text |
| JsonDeviations.LeadingZero | jsoncpp/src/json_reader.cpp:525-545 | [00] is read as an array of zero, though it is no JSON text |
| JsonDeviations.RawControl | jsoncpp/src/json_reader.cpp:611-662 | a tab between quotes is read as itself, though it is no JSON text |
| JsonDeviations.HalfRejected | jsoncpp/src/json_reader.cpp:671-688 | the JSON text ["\uD800"] is rejected under any features |
| JsonDeviations.FirstHalfAlone | jsoncpp/src/json_reader.cpp:671-688 | so is any first half of a surrogate pair on its own; the RFC gives the text no value |
| JsonDeviations.MergedWithLetter | jsoncpp/src/json_reader.cpp:677-684 | the JSON text ["\uD800\u0041"] is read as the one code point U+10041 |
| JsonDeviations.MergedWithOther | jsoncpp/src/json_reader.cpp:677-684 | any first half takes any escape behind it for its second half; the RFC gives the text no value |
| JsonDeviations.SecondHalfAlone | jsoncpp/src/json_reader.cpp:664-691 | any second half on its own is read as a code point; the RFC gives the text no value |
| JsonDeviations.CutAtNul | jsoncpp/src/json_value.cpp:350-360 | a JSON text that denotes a string of one NUL is read as the empty string |
| JsonDeviations.LoneSurrogate | jsoncpp/src/json_reader.cpp:664-691 | the JSON text ["\uDC00"] is read as a surrogate code point |
| JsonDeviations.CommentPasses | jsoncpp/src/json_reader.cpp:479-484 | a comment in an array is skipped even where comments are not allowed |
| JsonDeviations.CommentBeforeColon | jsoncpp/src/json_reader.cpp:431-434 | any comment between a name and its colon makes the text fail, although comments are allowed |
| JsonDeviations.RestIsIgnored | jsoncpp/src/json_reader.cpp:109-148 | what follows the value is not looked at |
| JsonDeviations.TrailingComma | jsoncpp/src/json_reader.cpp:416-417 | a comma may stand before the closing brace behind a member with the empty name |
| JsonDeviations.StrayToken | jsoncpp/src/json_reader.cpp:443-455 | behind a comment, any token but a closing brace passes for the comma |
| JsonRoundTrip.PrintAndParse | jsoncpp/src/json_writer.cpp:190-266 | parse(write(v)) succeeds without errors for both writers and gives v back, up to the type the reader gives a number and up to what the scanner makes of a printed real |
| JsonRoundTrip.ParsePrintParse | jsoncpp/src/json_reader.cpp:109-148 | parsing, printing and parsing again gives the same value, types included, unless it holds a real |
| JsonReadBack.TokensDenote | jsoncpp/src/json_writer.cpp:198-244 | the tokens both writers print of a value denote it, in either dialect |
| JsonReadBack.PrintsDocument | jsoncpp/src/json_writer.cpp:190-266 | so any text of those tokens and white space is a JSON text by RFC 8259 and denotes the value |
| JsonReadBack.PrintedReadsBack | jsoncpp/src/json_reader.cpp:109-221 | and parses to the value under every set of features that admits the root |
| JsonReadBack.ReadBack | jsoncpp/src/json_reader.cpp:150-221 | the tokens of a value, anywhere in a document, read as that value and no further |
| JsonReadBack.QuoteMeans | jsoncpp/src/json_writer.cpp:111-171 | a quoted string denotes the string, the \u00XX escapes included |
| JsonReadBack.EscapeSpelled | jsoncpp/src/json_writer.cpp:129-165 | each character the writers escape, and how: the letters of RFC 8259, upper-case \u00XX for other control characters, nothing for all others |
| JsonReadBack.IntTextMeans | jsoncpp/src/json_writer.cpp:39-58 | the text of an integer has no leading zero and denotes the integer |
| JsonPrint.CompactReadsBack | jsoncpp/src/json_writer.cpp:190-196 | the compact text reads back under every set of features that admits the root |
| JsonSyntax.InterleavedConcat | jsoncpp/src/json_writer.cpp:315-356 | texts of tokens and white space one after the other are such a text, which is how the styled writer builds its document up |
| JsonClean.ReprintIsStable | jsoncpp/src/json_reader.cpp:109-148 | whatever parses, printed either way and parsed again, is the same value |
| JsonClean.ValueIsClean | jsoncpp/src/json_reader.cpp:150-221 | parsed objects are maps in name order, strings have no NUL, integers have the type of their size |
| JsonMap.StoreUpdates | jsoncpp/src/json_value.cpp:969-987 | value[name] updates the map at that name and nowhere else |
| JsonMap.StoreKeepsOrder | jsoncpp/src/json_value.cpp:969-987 | insertion at lower_bound keeps the order of names |
| JsonMap.LookupFinds | jsoncpp/src/json_value.cpp:969-987 | look-up by lower_bound is map look-up |
| JsonMap.MapDetermines | jsoncpp/src/json_value.cpp:577-580 | two objects that are the same map have the same members in the same order |
| JsonClean.NumberIsClean | jsoncpp/src/json_reader.cpp:507-553 | the integer type of a decoded number follows from its size |
| JsonWriter.FastWriter.Write | jsoncpp/src/json_writer.cpp:190-196 | the text is the tokens run together and a line feed, and reads back as the value |
| JsonWriter.FastWriter.WriteValue | jsoncpp/src/json_writer.cpp:198-244 | appends exactly the compact text of the value |
| JsonWriter.FastWriter.WriteArray | jsoncpp/src/json_writer.cpp:219-228 | appends exactly the compact text of an array |
| JsonWriter.FastWriter.WriteObject | jsoncpp/src/json_writer.cpp:229-242 | appends exactly the compact text of an object, in name order |
| JsonStyled.StyledWriter.Write | jsoncpp/src/json_writer.cpp:252-261 | the same tokens as the compact writer with white space between them, so it reads back as the value; line by line the text JsonLayout.Layout gives the value, and a line feed |
| JsonStyled.StyledWriter.WriteValue | jsoncpp/src/json_writer.cpp:263-313 | adds the layout of the value at its indentation, or in collecting mode exactly one child text and nothing to the document; indentation restored |
| JsonStyled.StyledWriter.WriteObject | jsoncpp/src/json_writer.cpp:290-310 | each member on a line of its own, three blanks further in, the closing brace on its own line |
| JsonStyled.StyledWriter.WriteMember | jsoncpp/src/json_writer.cpp:293-303 | one line: break, indentation, quoted name, colon between blanks, value |
| JsonStyled.StyledWriter.WriteArrayValue | jsoncpp/src/json_writer.cpp:315-356 | the layout of an array, on one line or on several; the size assertion holds whenever the one-line form is chosen |
| JsonStyled.StyledWriter.WriteLines | jsoncpp/src/json_writer.cpp:321-343 | each element on a line of its own, three blanks further in; every childValues_ access is in range, from collected texts or by recursion |
| JsonStyled.StyledWriter.WriteLine | jsoncpp/src/json_writer.cpp:344-354 | the one-line form, of exactly the computed length |
| JsonStyled.StyledWriter.IsMultilineArray | jsoncpp/src/json_writer.cpp:358-381 | exactly when the lines are needed; afterwards no child texts or exactly one per element |
| JsonStyled.StyledWriter.WriteIndent | jsoncpp/src/json_writer.cpp:390-399 | adds nothing behind a blank, the indentation behind a line feed or at the very beginning, and a line feed and the indentation elsewhere |
| JsonStyled.StyledWriter.Unindent | jsoncpp/src/json_writer.cpp:408-411 | undoes one indentation; its assertion is a precondition that every caller meets |
| JsonLayout.ChildLine | jsoncpp/src/json_writer.cpp:290-343 | every member of a non-empty object and every element of an array in several lines begins a line, behind three blanks for each container open around it |
| JsonLayout.NestedLine | jsoncpp/src/json_writer.cpp:263-356 | the same for values at any depth, as long as no array around them is written on one line |
| JsonLayout.ClosingLine | jsoncpp/src/json_writer.cpp:306-308 | the closing bracket stands on a line of its own, behind the blanks of its opening depth |
| JsonLayout.OneLineHasNoBreak | jsoncpp/src/json_writer.cpp:344-354 | an array in the one-line form has no line feed in it, the elements included |
| JsonLayout.OneLineLength | jsoncpp/src/json_writer.cpp:371-378 | the length of that line is what the margin is compared with |
| JsonReader.Reader.Parse | jsoncpp/src/json_reader.cpp:109-148 | result, value, spans and errors are those of the grammar, for every document and every set of features; the stack ends with the root alone |
| JsonReader.Reader.ReadValue | jsoncpp/src/json_reader.cpp:150-221 | ends on every input, consumes what the grammar says, changes only the top of the stack and adds one error on failure |
| JsonReader.Reader.ReadObject | jsoncpp/src/json_reader.cpp:405-458 | members, spans, stack and the single error of an object |
| JsonReader.Reader.ReadArray | jsoncpp/src/json_reader.cpp:460-495 | elements, spans, stack and the single error of an array |
| JsonReader.Reader.ReadToken | jsoncpp/src/json_reader.cpp:240-309 | the token at the position, of the type its first character calls for |
| JsonReader.Reader.SkipCommentTokens | jsoncpp/src/json_reader.cpp:223-231 | the next token that is no comment, when comments are allowed |
| JsonReader.Reader.RecoverFromError | jsoncpp/src/json_reader.cpp:731-742 | skips behind the wanted token or the end marker and ends on every input |
| JsonReader.Reader.Match | jsoncpp/src/json_reader.cpp:321-330 | the backward comparison matches exactly the pattern |
| JsonReader.Reader.ReadString | jsoncpp/src/json_reader.cpp:393-403 | stops behind the closing quote, stepping over escaped characters |
| JsonReader.Reader.ReadCStyleComment | jsoncpp/src/json_reader.cpp:366-373 | stops behind the first star and slash |
| JsonReader.Reader.DecodeText | jsoncpp/src/json_reader.cpp:611-662 | decodes what the grammar decodes, or adds one error |
| JsonReader.Reader.DecodeUnicodeCodePoint | jsoncpp/src/json_reader.cpp:664-691 | code points and surrogate pairs, never reading behind the literal |
| JsonReader.Reader.DecodeUnicodeEscapeSequence | jsoncpp/src/json_reader.cpp:693-719 | four hexadecimal digits, or one error |
| JsonReader.Reader.DecodeNumber | jsoncpp/src/json_reader.cpp:507-553 | integer, double or error as the text demands |
| JsonGrammar.Parse | jsoncpp/src/json_reader.cpp:109-148 | true exactly with no errors; false with exactly one, or one or two under strictRoot; strictRoot admits containers only |
| JsonErrors.ParseErrors | jsoncpp/src/json_reader.cpp:721-729 | every recorded error points into the document, at a token that is there, and names the fault there is: what is missing at that token, or why its literal cannot be read |
| JsonErrors.ValueErrors | jsoncpp/src/json_reader.cpp:150-221 | an error of a value points behind the place its reading began, and names the fault at its token |
| JsonErrors.RecoverMeans | jsoncpp/src/json_reader.cpp:731-742 | skipping passes the tokens up to the first one of the wanted kind, or the end of the document, and stops behind that |
| JsonSpans.ParseSourced | jsoncpp/src/json_reader.cpp:109-221 | after a successful parse every span lies in the document and strictly inside its parent's, siblings are apart, begins with the first and ends with the last character of its value, and every slice parses alone to its value |
| JsonSpans.ValueEdged | jsoncpp/src/json_reader.cpp:150-221 | a value is read between its own brackets, quotes or first and last characters, exactly |
| JsonSpans.SliceParses | jsoncpp/src/json_reader.cpp:150-221 | the slice a value was read from parses to that value |
| JsonSpans.ElementsSourced | jsoncpp/src/json_reader.cpp:471-493 | spans of array elements |
| JsonSpans.MembersSourcedFrom | jsoncpp/src/json_reader.cpp:410-455 | spans of object members, in name order although read in source order, a repeated name keeping the later one |
| JsonReparse.ValueLocal | jsoncpp/src/json_reader.cpp:150-221 | the same bytes elsewhere read as the same value if no numeric character follows |
| JsonReparse.AfterLocal | jsoncpp/src/json_reader.cpp:443-454 | the same for the separator, where a comment lets any token pass unchecked |
| JsonLocal.TokenLocal | jsoncpp/src/json_reader.cpp:240-309 | a token depends on its own bytes, a number also on the byte behind it |
| JsonString.StringRoundTrip | jsoncpp/src/json_writer.cpp:111-171 | on any following text, scanning a quoted string stops at its closing quote and decoding gives the string back |
| JsonString.DecodeEscaped | jsoncpp/src/json_reader.cpp:611-662 | decoding undoes escaping, the \u00XX forms included |
| JsonString.EscapedEnd | jsoncpp/src/json_reader.cpp:393-403 | no escape can be taken for the closing quote |
| JsonString.PlainText | jsoncpp/src/json_writer.cpp:114-117 | the fast path agrees with the escaping loop |
| JsonString.ValueToQuotedString | jsoncpp/src/json_writer.cpp:111-171 | fast path and loop both give the escaped and quoted string |
| JsonString.Utf8RoundTrip | jsoncpp/include/json_tool.h:17-44 | the bytes are one well-formed UTF-8 sequence that encodes the code point: no overlong form, nothing above 0x10FFFF (RFC 3629, section 4), and a surrogate exactly for a surrogate |
| JsonNumber.DecodingIsExact | jsoncpp/src/json_reader.cpp:507-553 | for an optional minus and digits of any number: exact in range, a double exactly when out of range |
| JsonNumber.TypeBySize | jsoncpp/src/json_reader.cpp:546-551 | an integer is read back as an Int below 2^31, however small, and as a UInt from there on |
| JsonNumber.OtherNumbers | jsoncpp/src/json_reader.cpp:508-514 | a text of numeric characters with anything but digits behind its sign goes to the scanner of doubles |
| JsonNumber.IntegerRoundTrip | jsoncpp/src/json_writer.cpp:39-58 | printing and decoding any 64-bit integer is the identity up to its type |
| JsonNumber.ScanIsExact | jsoncpp/src/json_reader.cpp:525-545 | the overflow guard stops exactly the numbers above the maximum |
| JsonNumber.DecodeInteger | jsoncpp/src/json_reader.cpp:507-553 | the accumulator never overflows and the loop computes the decoding |
| JsonNumber.UIntToString | jsoncpp/include/json_tool.h:63-69 | writes exactly the digits and a terminator below the starting position, nothing else |
| JsonNumber.ValueToString | jsoncpp/src/json_writer.cpp:39-50 | the decimal text of every signed 64-bit integer, the smallest included; the buffer never underflows |
| JsonNumber.ValueToStringUnsigned | jsoncpp/src/json_writer.cpp:52-58 | the decimal text of every unsigned 64-bit integer |
| JsonNumber.BufferIsLargeEnough | jsoncpp/include/json_tool.h:49-56 | a 64-bit number has at most 20 digits |
| JsonValue.Trichotomy | jsoncpp/src/json_value.cpp:508-545 | of two values of bounded size exactly one is smaller or they are equal |
| JsonValue.Transitivity | jsoncpp/src/json_value.cpp:508-545 | the order is transitive across nested arrays and objects |
| JsonValue.CompareIsConsistent | jsoncpp/src/json_value.cpp:500-506 | compare is zero exactly on equal values and flips sign |
| JsonOrder.CompareMeans | jsoncpp/src/json_value.cpp:500-506 | and its sign says which value comes first, where first is said without operator< |
| JsonOrder.LessMeans | jsoncpp/src/json_value.cpp:508-545 | operator<: numbers and booleans by what they hold, strings by the first byte that differs, a proper prefix first, containers by size and then by the first entry that differs, name before value |
| JsonOrder.TypesInOrder | jsoncpp/include/value.h:37-46 | values of different types are in the order of the enumeration |
| JsonOrder.TextOrder | jsoncpp/src/json_value.cpp:202-206 | of two strings the smaller is a proper prefix, or smaller at the first byte that differs |
| JsonValue.SameIsEqual | jsoncpp/src/json_value.cpp:553-591 | operator== is equality of values |
| JsonValue.OrdersUpTo | jsoncpp/src/json_value.cpp:508-545 | for a bound n on the sizes of all containers, operator< is irreflexive, transitive and total on the values within it if and only if n < 2^31 |
| JsonValue.SizesWrap | jsoncpp/src/json_value.cpp:528-534 | an empty array and one of 2^31 nulls are each below the other |
| JsonValue.OrderNeedsSizes | jsoncpp/src/json_value.cpp:528-534 | two arrays are each below the other exactly when their sizes differ by 2^31 modulo 2^32 |
| JsonValue.TextTransitive | jsoncpp/src/json_value.cpp:202-206 | the order of names is transitive |
| JsonContainer.Value.Assign | jsoncpp/src/json_value.cpp:965-987 | value[key] = v updates the map at that key; a null value becomes an object |
| JsonContainer.Value.Resolve | jsoncpp/src/json_value.cpp:969-987 | an absent key is added with null, a present one left alone |
| JsonContainer.Value.Get | jsoncpp/src/json_value.cpp:998-1014 | the member or null |
| JsonContainer.Value.RemoveMember | jsoncpp/src/json_value.cpp:1049-1072 | removes exactly that key and returns its value or null |
| JsonContainer.Value.Append | jsoncpp/src/json_value.cpp:1038 | the value becomes the last element; a null value becomes an array |
| JsonContainer.Value.GetMemberNames | jsoncpp/src/json_value.cpp:1100-1123 | all names, each once, in increasing order |
| JsonContainer.Value.Size | jsoncpp/src/json_value.cpp:827-854 | number of elements or of distinct names, zero for other values |
| BatchAllocator.Allocator.Allocate | jsoncpp/include/json_batchallocator.h:54-76 | a block that was not live, whole and inside its batch, the last released one first; a new batch only when no free block or slot remains; nothing else changes hands |
| BatchAllocator.Allocator.LiveAreApart | jsoncpp/include/json_batchallocator.h:54-76 | two different live blocks do not overlap |
| BatchAllocator.Allocator.Release | jsoncpp/include/json_batchallocator.h:81-85 | the block moves from the live ones to the front of the free list |
| BatchAllocator.Allocator.NextBatch | jsoncpp/include/json_batchallocator.h:61-72 | the walk finds no batch with room, as all but the head are full |
| BatchAllocator.Allocator.SkipFull | jsoncpp/include/json_batchallocator.h:62-64 | the walk ends at the end of the list |
| BatchAllocator.Allocator.Carve | jsoncpp/include/json_batchallocator.h:73-75 | the next whole slot of the head |
| BatchAllocator.Allocator.TakeReleased | jsoncpp/include/json_batchallocator.h:55-60 | the link stored in the block leads to the rest of the list |
| BatchAllocator.Allocator.Store | jsoncpp/include/json_batchallocator.h:81-85 | what clients write into live blocks never damages the free list |
| BatchAllocator.Allocator.InsideBatch | jsoncpp/include/json_batchallocator.h:99-108 | every block handed out lies in the buffer of its batch |
| BatchAllocator.BlocksAreApart | jsoncpp/include/json_batchallocator.h:54-76 | two different blocks do not overlap |
| BatchAllocator.Bump | jsoncpp/include/json_batchallocator.h:73-75 | carving keeps every block accounted for and the total unchanged |
| BatchAllocator.MakeFree | jsoncpp/include/json_batchallocator.h:81-85 | releasing keeps every block accounted for and the total unchanged |
| BatchAllocator.PageMustDivide | jsoncpp/include/json_batchallocator.h:61-75 | blocks stay inside the page's memory exactly when a page is a whole number of blocks |
| BatchAllocator.PageOverrun | jsoncpp/include/json_batchallocator.h:61-75 | with three objects a block and sixteen a page the seventeenth block is outside |
| TailQueue.Queue.InsertBehind | libevent/include/queue.h:322-347 | the four writes that put an element behind another or the head, in the order of the macros |
| TailQueue.Queue.InsertHead | libevent/include/queue.h:322-330 | the sequence with the element in front; all links of both directions |
| TailQueue.Queue.InsertTail | libevent/include/queue.h:332-337 | the sequence with the element at the end, through the stored address of the last forward pointer |
| TailQueue.Queue.InsertAfter | libevent/include/queue.h:339-347 | the sequence with the element behind the given one |
| TailQueue.Queue.InsertBefore | libevent/include/queue.h:349-354 | the sequence with the element before the given one, without the head at hand |
| TailQueue.Queue.Remove | libevent/include/queue.h:356-363 | the sequence without the element |
| TailQueue.Queue.Replace | libevent/include/queue.h:365-373 | the sequence with one element exchanged |
| TailQueue.Queue.Last | libevent/include/queue.h:296-297 | the last element, or null, through the pair that holds the last forward pointer |
| TailQueue.Queue.Prev | libevent/include/queue.h:299-300 | the element before, or null for the first |
| TailQueue.Queue.ForEach | libevent/include/queue.h:304-307 | visits exactly the sequence |
| TailQueue.Queue.ForEachReverse | libevent/include/queue.h:309-312 | visits exactly the reverse |
| TailQueue.ReversedAt | libevent/include/queue.h:309-312 | what the reverse walk visits at each step |
| TailQueue.InsertKeepsRing | libevent/include/queue.h:322-354 | the four link writes of any insertion |
| TailQueue.RemoveKeepsRing | libevent/include/queue.h:356-363 | the two link writes of a removal |
| TailQueue.ReplaceKeepsRing | libevent/include/queue.h:365-373 | the four link writes of a replacement |
| TrailingSpace.SkipTrailingSpace | database/mysql/include/m_string.h:266-290 | the same end as the byte loop for every buffer, length and alignment |
| TrailingSpace.SkipWords | database/mysql/include/m_string.h:282-284 | every word read lies in the buffer; whole words of spaces only are skipped |
| TrailingSpace.WordOfSpaces | database/mysql/include/m_string.h:225-227 | a word equals the constant exactly when all its bytes are spaces, for 4- and 8-byte words |
| TrailingSpace.SpaceWords | database/mysql/include/m_string.h:225-227 | the constants for both word sizes |
| TrailingSpace.PlainEndMeans | database/mysql/include/m_string.h:287-289 | all behind the end are spaces and the byte before it is none |
| ConnectString.ConnectStrings.Parse | SysMonitor/db_utility.cpp:42-225 | a successful run sets every field to what the string says, stated on its bytes alone: texts in original case, the source cut at its first comma with the host before it and the number behind it as port, numbers modulo 2^32, and bit five of the flag for a compress of yes; too long strings change nothing; the runs that leave a buffer are exactly those of length 256 and those with a look-up that is not Readable |
| ConnectString.ConnectStrings.TakeValue | SysMonitor/db_utility.cpp:83-89 | one look-up, whether it stays in the copy, and one terminator behind the value |
| ConnectString.ConnectStrings.Source | SysMonitor/db_utility.cpp:99-117 | source, host and port: the host reads as what is before the first comma, the port is atoi of what is behind it; without a comma port 0 and no host |
| ConnectString.ConnectStrings.CopyString | SysMonitor/db_utility.cpp:76-80 | the original in one buffer, its lower-case copy in the other |
| ConnectString.GetParamValue | SysMonitor/db_utility.cpp:21-40 | the first place of the name behind a space, and the value up to the next quote; outside the copy exactly when not Readable |
| ConnectString.FieldReads | SysMonitor/db_utility.cpp:82-207 | terminators written for other fields never shorten a value, except the one at the comma |
| ConnectString.ApartReadsWhole | SysMonitor/db_utility.cpp:99-117 | a value that does not overlap the source's reads back whole |
| ConnectString.SourceReadsToComma | SysMonitor/db_utility.cpp:109-116 | the source reads up to its first comma |
| ConnectString.FieldsMean | SysMonitor/db_utility.cpp:82-221 | what the parser computes for each field is what the bytes of the string say of it |
| ConnectString.TakenMeans | SysMonitor/db_utility.cpp:21-40 | a look-up takes the value that stands behind the first occurrence of the name, blank, name, quotes and end said byte by byte |
| ConnectString.HostMeans | SysMonitor/db_utility.cpp:109-116 | for a value h, comma, t without a comma in h: host h and port atoi(t) modulo 2^32 |
| ConnectString.FlagMeans | SysMonitor/db_utility.cpp:209-221 | the flag is the number given, with bit five set exactly if compress reads yes, and no other bit touched |
| ConnectString.ParameterNames | SysMonitor/db_utility.h:76-92 | the names looked for, letter by letter |
| ConnectString.LettersLowered | SysMonitor/port.cpp:58-70 | each of the 26 capital letters becomes the small one |
| ConnectString.LengthCheck | SysMonitor/db_utility.cpp:55 | the check keeps the copy inside the buffer for all lengths except exactly 256 |
| ConnectString.TooLongByOne | SysMonitor/db_utility.cpp:55 | a string of 256 bytes that passes the check and does not fit |
| ConnectString.ReadableMeans | SysMonitor/db_utility.cpp:28-34 | a look-up leaves the copy exactly when the first occurrence of the name stands behind a space and ends at byte 254 or later |
| ConnectString.ShortIsSafe | SysMonitor/db_utility.cpp:42-225 | below 254 bytes every look-up stays in the copy |
| ConnectString.NameAtTheEnd | SysMonitor/db_utility.cpp:28-34 | a string of 254 bytes whose look-up leaves the copy |
| ConnectString.StrLwr | SysMonitor/port.cpp:58-70 | lower case in place, every byte at its position, up to the terminator |

## Left out

- Formatting and scanning of doubles: library behaviour. A real comes back as whatever the scanner makes of its printed text.
- Comment collection and printing, dropped null placeholders, YAML spacing and numeric keys: options that add cases only.
- Sparse arrays and `Value::resize`: arrays grow by appending or parsing.
- Error messages and their extra location: an error is its kind and its token.
- The string value with a null pointer, static strings and the internal map containers of `Value`.
- Aliasing of values under construction: the reader's references into parents are modelled by writing back.
- `StyledStreamWriter`: a near copy of `StyledWriter`.
- `Path`, stream input, line and column numbers: outside the grammar.
- RB_AUGMENT, empty by default, and the O(1) predicates of the tree and queue macros.
- The other theorems on splay trees (locality, working set): the header claims the Balance Theorem alone.
- The other lists of `queue.h`: easier siblings of the tail queue.
- The destructor of the batch allocator, and exhaustion of memory in `malloc`.
- JsonStyled.StyledWriter.Write: the layout is promised only if no real is printed with a blank or a line feed in it, as the text of a real is arbitrary here.
- JsonThrough.CommentsAreSpace: comments are those that end; a comment of the C++ kind behind the last token, which the end of the document closes, is behind the value, where nothing is looked at.
- JsonRoundTrip.PrintAndParse: a value that holds a real is promised back only if the real is printed as a JSON number that the scanner accepts.
- JsonString.Utf8RoundTrip: surrogate code points are encoded like any other, as the code does.
- ConnectString.ConnectStrings.Parse: `atoi` is an arbitrary function, and nothing is said of the fields after an overrun.
- Monitors, configuration loading, logging, threads and database access: input and output.
