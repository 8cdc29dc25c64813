# A verified model of the Vyatta REST server's core logic

The server behind the Vyatta web interface reads and writes a router's configuration
through nested forms, runs operational commands in the background and pages their
output to the client, and keeps tables of login sessions and of configuration
sessions.  This project models those parts in Dafny and proves what holds of them for
every input, every order of hash or directory iteration and every run.

`dafny verify dfyconfig.toml` checks everything.

| part | modules |
|---|---|
| reconciling forms with the configuration tree | `Config`, `Cli`, `Reconcile`, `Laws`, `Lens`, `MsgSimple` |
| commands for edited parameter trees | `Params`, `Edits` |
| paging of command output | `Paging`, `Delivery`, `Processor`, `Manager`, `Replies`, `Messages` |
| the way of an operational command | `Url`, `OpCommand`, `Tokenizer`, `RestClient`, `Opc` |
| strings and JSON | `Text`, `Digits`, `Replace`, `Escape`, `StrProc`, `Json`, `Http` |
| session tables | `Login`, `SessionFile`, `Registry` |

Code that works in place is a class or a method with the source's loops, proved
against a function; the theorems are about those functions.  A loop over hash keys or
directory entries picks them in any order, so a method whose `ensures` names one
function of the state is independent of that order.

## What does not hold, and exactly when it does

- Writing back a form just read changes nothing if and only if no mapped node is there
  without a value that is read (neither a single-valued node left empty, nor a node
  without a type, nor one at an empty location), and no single value that is read is empty
  or ends in a blank.  Such a node is deleted with all below it, and such a value replaced
  by its stripped text (`Lens.GetPut`, `Lens.TypelessIsLost`, `Lens.EmptyLocationIsLost`,
  `Lens.BlankEndIsLost`).
- A form reads back as written if and only if no single value in it is empty or ends in a
  blank, and no value has its node cleared again by an element below it with an empty
  location (`Lens.PutGet`, `Lens.EmptyValueIsLost`).
- The order of the hash does not matter for a single-valued node if and only if all its
  values are the same once stripped (`MsgSimple.PickExactly`, `MsgSimple.OrderMatters`).
- Commands for an edited tree do what it says if and only if no deleted or unchanged entry
  carries a new name: the path of every command has the new name, whatever the status
  (`Edits.EditExactly`, `Edits.DeletedElsewhere`).
- A tag entry or a multi value is put on the command line without quotes and reaches
  `cfgcli` as one word if and only if it is a nonempty word without blanks
  (`Cli.UnquotedExactly`).
- No run of the paging protocol loses a byte if and only if the manager's chunk is at
  most what the client reads at once (`Delivery.LossExactly`).  The client reads 98304
  bytes, and `src/server/chunker2_main.cc:79-82` accepts chunks up to 131072.
- With equal sizes nothing is delivered twice if and only if no read follows an append that
  was made after its poll while less than a chunk was left (`Delivery.ExactlyOnce`).
- A background process can be deleted by any user who knows its token; only its cursor is
  its owner's alone (`Manager.LivesExactly`, `Manager.DeletedByOther`,
  `Manager.CursorByOwner`).
- The words of a command arrive as typed if and only if the first one needs no
  percent-escape, since it alone is not decoded (`RestClient.EndToEnd`); a command of
  a single word comes to nothing (`RestClient.SingleWordLost`), and a leaf in double quotes
  comes in pieces if it holds a single quote (`RestClient.QuotedEndToEnd`).  `opc` gets
  them if besides none holds a backslash or a control character (`Opc.CommandExecuted`).
- `tokenizeOpCmd` runs for ever if and only if the last quote has a blank behind it and the
  text before it is words in quotes and words with a blank behind them
  (`Tokenizer.TerminatesExactly`); no translated line is of that kind
  (`OpCommand.AlwaysTerminates`).
- `StrProc` splits as documented if and only if the text holds no `~`
  (`StrProc.SplitsExactly`).
- Output escaped by five passes is read back if and only if it holds no control
  character but the three that are escaped; the two-pass escape also loses every
  backslash (`Escape.EscapeExactly`, `Escape.TwoExactly`, `Http.AnswerExactly`).
- `process_chunk_end` keeps its argument if and only if that has no newline; it is
  only ever given the empty string (`Processor.EndSplitExactly`).
- A user never gets two sessions of one description if and only if no session is
  created whose description is the id of another user's session, while the user has
  one so described and the other user has none: the duplicate test is then made for
  the other user (`Registry.RunNoDupExactly`, with a three-request run in
  `Registry.TwiceIsSane`).

## Model

| member | source | states |
|---|---|---|
| `Config.ExecAllConcat` | src/server/lib/perl5/App/MsgSimple.pm:284-327 | running two command lists one after the other is running their concatenation |
| `Cli.LexWords` | src/server/lib/perl5/App/MsgSimple.pm:284-327 | blank-separated plain words of a command line come out of the shell's word splitting unchanged |
| `Cli.ParseValue` | src/server/lib/perl5/App/MsgSimple.pm:841-896 | a `set` or `delete` line with an unquoted plain value is the command on location and value |
| `Cli.ParseQuoted` | src/server/lib/perl5/App/MsgSimple.pm:877-896 | a line whose value stands between escaped quotes is the command on location and the whole value, blanks included |
| `Cli.UnquotedExactly` | src/server/lib/perl5/App/MsgSimple.pm:841-876 | an unquoted value is received as the one word it is if and only if it is a nonempty word without blanks |
| `Cli.NoPath` | src/server/lib/perl5/App/MsgSimple.pm:814-820 | the line for an empty location at the top names no node and is no command |
| `Text.StripExactly` | src/server/lib/perl5/App/MsgSimple.pm:880-882 | stripping takes all the blanks at the end of a value and nothing else |
| `Text.BlankIs` | src/server/lib/perl5/App/MsgSimple.pm:880-882 | the six characters that are blanks |
| `Lens.PutValues` | src/server/lib/perl5/App/MsgSimple.pm:814-951 | after a write a value is at a mapped location if and only if it is left of the form (at a node neither tag nor multi: not empty, not ending in a blank, and in the form with blanks behind it or none) and no element below it clears its node again |
| `Laws.StoreBelow` | src/server/lib/perl5/App/MsgSimple.pm:941-951 | strictly below a kept value the whole write and the nested write agree |
| `Laws.GetLocal` | src/server/lib/perl5/App/MsgSimple.pm:574-704 | reading at a location looks only at its strict descendants |
| `Lens.PutGet` | src/server/lib/perl5/App/MsgSimple.pm:786-951 | reading back a written form gives exactly that form at every depth if and only if no single value in it is empty or ends in a blank and no value has its node cleared by an element below it with an empty location |
| `Lens.GetPut` | src/server/lib/perl5/App/MsgSimple.pm:574-951 | writing back the form just read leaves the configuration unchanged if and only if no mapped node is there without a value that is read and no single value that is read is empty or ends in a blank |
| `Lens.TypelessIsLost` | src/server/lib/perl5/App/MsgSimple.pm:877-896 | for every configuration with a mapped node without a type: it reads as empty, and writing that back deletes it with all below it and nothing else |
| `Lens.EmptyValueIsLost` | src/server/lib/perl5/App/MsgSimple.pm:880-885 | for every configuration: an empty value for a single-valued node deletes it, and nothing is read back |
| `Lens.BlankEndIsLost` | src/server/lib/perl5/App/MsgSimple.pm:880-895 | for every configuration with a single value that ends in a blank: writing back what was read puts the stripped text in its place |
| `Lens.EmptyLocationIsLost` | src/server/lib/perl5/App/MsgSimple.pm:816-820 | for every tag entry with an element below it at an empty location: no field is shown for the element, and writing back deletes the entry with all below it |
| `Lens.PutFrame` | src/server/lib/perl5/App/MsgSimple.pm:814-951 | a path disappears only below a value not left of the form at a mapped location or with an emptied node, and appears only as part of a value that is left of it |
| `Lens.PutClosed` | src/server/lib/perl5/App/MsgSimple.pm:814-951 | a write leaves a configuration tree a tree |
| `MsgSimple.StoreValsStep` | src/server/lib/perl5/App/MsgSimple.pm:941-951 | nested writes below different values do not meet, so they may come in any order |
| `MsgSimple.StoreStep` | src/server/lib/perl5/App/MsgSimple.pm:814-951 | writes of different elements do not meet, so they may come in any order |
| `MsgSimple.NodesDone` | src/server/lib/perl5/App/MsgSimple.pm:841-876 | deleting configuration minus form and setting form minus configuration brings a tag or multi node to the form |
| `MsgSimple.SingleDone` | src/server/lib/perl5/App/MsgSimple.pm:877-896 | setting a changed value, or deleting the node for no value, brings a node that is neither tag nor multi to the form |
| `MsgSimple.Session.RunCmd` | src/server/lib/perl5/App/MsgSimple.pm:284-327 | a command line changes the candidate configuration as the words the shell makes of it say |
| `MsgSimple.Session.SetNodes` | src/server/lib/perl5/App/MsgSimple.pm:841-876 | the reused `%diff` holds form minus configuration in its second phase, and the node ends with the form's values |
| `MsgSimple.Session.PickSingle` | src/server/lib/perl5/App/MsgSimple.pm:877-896 | a node that is neither tag nor multi ends with whichever value the hash gives first, without the blanks at its end and only without those, or is gone if nothing is left |
| `MsgSimple.Session.SetSingle` | src/server/lib/perl5/App/MsgSimple.pm:877-896 | it ends with what is left of the form when all its values are the same stripped |
| `MsgSimple.PickExactly` | src/server/lib/perl5/App/MsgSimple.pm:878-879 | of several values at a single-valued node it does not matter which comes first if and only if all are the same stripped |
| `MsgSimple.OrderMatters` | src/server/lib/perl5/App/MsgSimple.pm:878-879 | a form whose result depends on the order of the hash |
| `MsgSimple.Session.SetElem` | src/server/lib/perl5/App/MsgSimple.pm:786-951 | whatever the order of hash keys at every depth, the candidate ends as the one configuration `Put` describes, stripped values, empty ones and all |
| `MsgSimple.Session.GetElem` | src/server/lib/perl5/App/MsgSimple.pm:574-704 | whatever the order of hash keys, the form read is `Get` of the running configuration |
| `MsgSimple.Session.ListValues` | src/server/lib/perl5/App/MsgSimple.pm:760-778 | the values found at a node by its kind, none at a node without a type |
| `MsgSimple.Session.GetValues` | src/server/lib/perl5/App/MsgSimple.pm:606-670 | the values at a location, each with the form below it |
| `MsgSimple.Session.Write` | src/server/lib/perl5/App/MsgSimple.pm:181-233 | when reading the result back gives the form written, and when a form just read changes nothing, both exactly |
| `Edits.EditOne` | src/server/lib/perl5/App/Param/Base.pm:212-283 | the commands of one subtree turn its old values into its new ones and touch nothing else |
| `Edits.EditAll` | src/server/lib/perl5/App/MsgParser.pm:129-167 | the commands of the whole tree in walk order turn the configuration of the old values into that of the new, other paths unchanged |
| `Edits.EditExactly` | src/server/lib/perl5/App/Param/Base.pm:212-283 | they do so if and only if no deleted or unchanged entry that the walk comes to carries another name than its own |
| `Edits.StaleName` | src/server/lib/perl5/App/Param/Base.pm:212-226 | such an entry leaves its old name behind |
| `Edits.DeletedElsewhere` | src/server/lib/perl5/App/Param/Base.pm:254-258 | a deletion with a new name: one delete of a node that is not there, and the entry stays |
| `Edits.MovedRenamed` | src/server/lib/perl5/App/Param/Base.pm:254-283 | after a rename the old subtree stands under the new name and nothing under the old one |
| `Edits.CommandsUnder` | src/server/lib/perl5/App/Param/Base.pm:212-252 | every command of a subtree works at or below its mapped path, new names included |
| `Edits.RenameFirst` | src/server/lib/perl5/App/MsgParser.pm:129-154 | a tag's `move` is the first command of its subtree and all later ones use the new name |
| `Edits.DeleteAlone` | src/server/lib/perl5/App/MsgParser.pm:129-154 | a deleted node emits one delete and nothing below it is emitted |
| `Paging.DeadForever` | src/server/chunker2_manager.cc:269-288 | a finished process stays finished and answers -1 to every later `<next>`, whatever the files do |
| `Paging.DeadOffset` | src/server/chunker2_manager.cc:269-288 | the unsigned offset of a finished process wraps to chunk - 1 or falls back to the file size |
| `Paging.AdvanceRunning` | src/server/chunker2_manager.cc:276-288 | below 2^32 bytes the modular arithmetic of a poll is plain arithmetic |
| `Paging.SizeIsCut` | src/server/chunker2_manager.cc:276-288 | past 2^32 bytes the comparison sees the size less 2^32, so the cursor may jump to the end of the file |
| `Paging.PollBound` | src/server/chunker2_manager.cc:269-288 | with the marker there, poll n answers END if and only if n exceeds max(1, ceil((size - offset) / chunk)) |
| `Delivery.InvStep` | src/server/chunker2_manager.cc:255-298 | every append, end, poll and read step keeps the delivery invariant |
| `Delivery.AtLeastOnce` | src/server/multirespcmd.cc:182-265 | in every interleaving bodies are true, the offset stays within the file, every byte below it is delivered or promised, and END comes only after every byte |
| `Delivery.LossExactly` | src/server/chunker2_main.cc:79-82 | no run loses a byte if and only if the manager's chunk does not exceed the client's read size |
| `Delivery.ExactlyOnce` | src/server/chunker2_manager.cc:276-289 | with equal sizes the bodies are at all times the file up to the offset, and the whole file at END, if and only if no read follows an append made after its poll while less than a chunk was left to read |
| `Delivery.EndComes` | src/server/multirespcmd.cc:219-262 | from every reachable world with the writer done, n polls bring END if and only if n exceeds what is left, and every byte with it |
| `Processor.TokenFile.ProcessChunk` | src/server/chunker2_processor.cc:289-304 | appends all it is given and hands back an empty carry |
| `Processor.TokenFile.ProcessChunkEnd` | src/server/chunker2_processor.cc:248-283 | appends its argument up to the last newline, then sets the marker |
| `Processor.TokenFile.Reader` | src/server/chunker2_processor.cc:223-241 | the file grows by the concatenation of all pipe reads, each cut at its first NUL, and only then the marker appears |
| `Processor.EndSplitExactly` | src/server/chunker2_processor.cc:248-283 | the split at the last newline keeps everything if and only if there is no newline |
| `Processor.ReadChunk` | src/server/multirespcmd.cc:233-250 | the read loop returns the bytes from a position up to the limit or the end of the file |
| `Messages.ExtractNamed` | src/server/chunker2_manager.cc:139-166 | the text between a tag and its closing tag is extracted from a printed message, wherever the tags stand |
| `Messages.CutWhere` | src/server/chunker2_manager.cc:139-166 | a closing tag in front of the opening one: the unsigned count wraps and all the rest is taken |
| `Messages.VerbFound` | src/server/chunker2_manager.cc:169-304 | a verb is found in a printed message if and only if it was printed |
| `Messages.CommandRoundTrip` | src/server/common.cc:60-64 | the manager gets token, statement, user and verb out of a `<command>` message as put in |
| `Messages.VerbRoundTrip` | src/server/common.cc:60-64 | the same for the other four messages, which carry no statement |
| `Messages.CommandFormat` | src/server/common.cc:60 | the text of a `<command>` message, piece by piece |
| `Messages.VerbFormat` | src/server/common.cc:61-64 | the text of the other four messages |
| `Manager.ChunkerManager.Process` | src/server/chunker2_manager.cc:119-306 | the table and the reply after any message |
| `Manager.ChunkerManager.List` | src/server/chunker2_manager.cc:202-254 | the reply lists the selected entries in table order |
| `Manager.ChunkerManager.NextChunk` | src/server/chunker2_manager.cc:255-298 | the reply to the owner and the moved cursor, the unsigned arithmetic written out |
| `Manager.HandleKeeps` | src/server/chunker2_manager.cc:169-304 | every message keeps keys equal to tokens, fields nonempty, and surviving entries the same process |
| `Manager.RunKeeps` | src/server/chunker2_manager.cc:119-306 | the same over every run: start, command, token and user never change while an entry lives |
| `Manager.HandleEntry` | src/server/chunker2_manager.cc:255-304 | an entry goes exactly by a `<delete>` with its token and a pid file, and its cursor moves exactly by a `<next>` of its owner's |
| `Manager.LivesExactly` | src/server/chunker2_manager.cc:299-304 | over every run an entry lives on if and only if no message deletes it, whoever sends it |
| `Manager.CursorByOwner` | src/server/chunker2_manager.cc:255-298 | over every run an entry's cursor is what its owner's polls alone make of it |
| `Manager.DeletedByOther` | src/server/chunker2_manager.cc:299-304 | a run in which one user's process is deleted by another |
| `Replies.RecordFields` | src/server/multirespcmd.cc:94-128 | a printed record comes apart into its five fields |
| `Replies.RecordText` | src/server/chunker2_manager.cc:214-217 | the text of a record, field by field |
| `Replies.ColonKeepsCommaFree` | src/server/chunker2_manager.cc:207-219 | no `%2C` can straddle a field boundary |
| `Replies.ListingFields` | src/server/multirespcmd.cc:160-172 | splitting a listing at `%2C` gives its records |
| `Replies.GetProcesses` | src/server/multirespcmd.cc:135-174 | the client reads start, command, token and user of exactly the listed processes, in order |
| `Replies.GetProcessDetails` | src/server/multirespcmd.cc:94-128 | the first record of the reply, or empty fields |
| `Replies.SelectExactly` | src/server/chunker2_manager.cc:207-219 | a listing holds exactly the user's entries |
| `Replies.SelectInOrder` | src/server/chunker2_manager.cc:207-219 | in the order of the table |
| `Replies.ProcessRoundTrip` | src/server/multirespcmd.cc:135-174 | from the client's `<process>` message to what it reads: exactly its user's processes, each once, in the order of the table, and the table unchanged |
| `Replies.DetailsRoundTrip` | src/server/multirespcmd.cc:94-128 | from the client's `<details>` message to what it reads: the one process of that token if it is the user's, and nothing otherwise |
| `Replies.CommandStarts` | src/server/chunker2_manager.cc:169-201 | a `<command>` with a new token and nothing empty adds exactly one entry with that token, statement and user, started now, at offset 0 and running; an empty field starts nothing, an existing token keeps its entry, and without a statement is only touched |
| `Replies.StartedIsThere` | src/server/chunker2_manager.cc:169-298 | what a client has started it finds in its list, and its first poll answers 0 |
| `Replies.NoToken` | src/server/chunker2_manager.cc:139-146 | a message without a token does nothing |
| `Replies.AnswerReads` | src/server/multirespcmd.cc:182-232 | the client reads the answered offset, -1 included |
| `Replies.PollRoundTrip` | src/server/multirespcmd.cc:182-232 | a poll by the owner gives the client the position before the step, and the manager's cursor moves on |
| `Replies.PollRefused` | src/server/chunker2_manager.cc:255-298 | a `<next>` by another user or for no process changes nothing, and the client reads no position from the reply |
| `Replies.NextMessage` | src/server/multirespcmd.cc:182-232 | the client's `<next>` message parses to that request |
| `Url.DecodeToken` | lib/Vyatta/RestClient.pm:201-206 | percent-decoding undoes the escaping of every token without NUL |
| `Url.EscapedChars` | lib/Vyatta/RestClient.pm:201-206 | an escaped token holds no slash, blank, quote or angle bracket |
| `Url.NeedsNoEscape` | lib/Vyatta/RestClient.pm:201-206 | escaping changes nothing if and only if all characters are unreserved and none is a quote |
| `Url.EscapedWhich` | lib/Vyatta/RestClient.pm:201-206 | letters, digits and the marks `-._~!*()` go as they are, and what is reserved, blanks and quotes do not |
| `Url.PercentIs` | lib/Vyatta/RestClient.pm:201-206 | the two digits behind a percent sign are the byte, the high digit first |
| `Url.PercentKept` | src/server/common.cc:428-430 | a percent sign that no two hexadecimal digits follow stays |
| `Url.LowerCase` | src/server/common.cc:428-430 | digits of either case are decoded |
| `OpCommand.TranslateRestToCli` | src/server/common.cc:422-464 | the loop over the slashes builds the line `Translate` describes |
| `OpCommand.TranslatePath` | src/server/common.cc:422-464 | the first part goes raw, every other decoded and inside one pair of quotes |
| `OpCommand.AlwaysTerminates` | src/server/common.cc:428-462 | the tokenizer ends on every translated line, whatever quotes are in it |
| `OpCommand.TranslatedWords` | src/server/chunker2_processor.cc:181-218 | tokens free of quotes or wrapped in one pair come back whole, an empty last one excepted |
| `OpCommand.QuoteInside` | src/server/common.cc:440-447 | a token in double quotes that holds a single quote comes in pieces |
| `OpCommand.ShortTokens` | src/server/common.cc:440-447 | an empty token and a lone quote of either kind on the line |
| `Tokenizer.TokenizeOpCmd` | src/server/chunker2_processor.cc:181-218 | the scanning loop ends with the words of the line |
| `Tokenizer.TerminatesExactly` | src/server/chunker2_processor.cc:188-217 | the scan, with its jump back to 0, ends if and only if it is not so that the last quote of the text has a blank behind it and the text before it is words in quotes and words with a blank behind them |
| `Tokenizer.ForEver` | src/server/chunker2_processor.cc:204-210 | a line on which the scan never ends, and one that differs by a blank on which it does |
| `Tokenizer.QuotedWords` | src/server/chunker2_processor.cc:205-210 | quoted words come out whole, whatever blanks they hold |
| `Tokenizer.CommandWords` | src/server/chunker2_processor.cc:188-217 | a plain first word and quoted words after it are tokenized to those words |
| `Tokenizer.PlainWords` | src/server/chunker2_processor.cc:188-217 | words without quotes are what is between the blanks |
| `RestClient.Cmd2Path` | lib/Vyatta/RestClient.pm:183-210 | the push loop builds the slash-joined escaped words, a quoted leaf kept as one word |
| `RestClient.PathBack` | lib/Vyatta/RestClient.pm:183-210 | splitting the path at slashes and decoding gives the words back |
| `RestClient.LeafTokens` | lib/Vyatta/RestClient.pm:187-199 | a leaf in single or double quotes is found by the patterns and kept whole |
| `RestClient.Arrives` | src/server/common.cc:422-464 | for every command text, whatever quotes are in it: the manager gets the line, the scan ends, and the words are those of that line |
| `RestClient.ArrivesWhole` | src/server/chunker2_processor.cc:181-218 | words free of quotes or wrapped in one pair arrive out of their quotes, the first still escaped |
| `RestClient.EndToEnd` | lib/Vyatta/RestClient.pm:183-210 | two or more plain words arrive as typed if and only if the first needs no escaping |
| `RestClient.WordsArriveAsTyped` | lib/Vyatta/RestClient.pm:183-210 | words behind a first one of letters, digits and `-._~!*()` arrive as typed |
| `RestClient.ReservedChanged` | lib/Vyatta/RestClient.pm:201-206 | a command with a reserved character in its first word does not |
| `RestClient.WordThenBlanks` | lib/Vyatta/RestClient.pm:198 | any number of blanks between words is one separation, and those in front do not count (`RestClient.BlanksSkipped`) |
| `RestClient.LeafNewline` | lib/Vyatta/RestClient.pm:187-196 | a newline at the end does not hide a quoted leaf, one further inside does |
| `RestClient.QuotedEndToEnd` | lib/Vyatta/RestClient.pm:187-199 | words and a quoted leaf arrive as typed if and only if the first needs no escaping and the leaf is not empty and holds no single quote |
| `RestClient.SingleWordLost` | src/server/common.cc:422-464 | a command of one word gives an empty line |
| `Opc.WriteArgs` | src/server/chunker2_processor.cc:156-163 | the loop over the words builds the JSON text handed to `opc` |
| `Opc.ArgsExactly` | src/server/chunker2_processor.cc:156-163 | `opc` reads the words as they are if and only if there are some, none is empty and none holds a double quote, a backslash or a control character |
| `Opc.CommandExecuted` | src/server/chunker2_processor.cc:140-163 | two or more plain words reach `opc` as typed if and only if the first needs no percent-escape and none holds a backslash or a control character |
| `Replace.MassReplace` | src/server/common.cc:163-175 | the in-place loop ends and equals left-to-right non-overlapping replacement, also when the replacement holds the victim |
| `Replace.ReplaceOne` | src/server/common.cc:163-175 | replacing a single character is a map over the characters |
| `Escape.EscapeOutput` | src/server/confmode.cc:715-722 | five passes in order equal one escape of each character |
| `Escape.PassesAreOne` | src/server/confmode.cc:715-722 | the same as a law of the composed maps |
| `Escape.EscapeExactly` | src/server/confmode.cc:715-722 | decoding by section 7 of RFC 8259 recovers the output if and only if it holds no other control character |
| `Escape.ShortEscapes` | src/server/confmode.cc:715-722 | the eight short escapes of section 7 of RFC 8259, as the decoding takes them |
| `Escape.EscapeMessage` | src/server/confmode.cc:637-638 | two passes equal one escape of each character |
| `Escape.TwoExactly` | src/server/confmode.cc:637-638 | decoding recovers the message if and only if it holds no backslash and no other control character |
| `StrProc.TildeTokens` | src/server/rl_str_proc.cc:40-43 | the non-advancing replacement loop ends and replaces every token |
| `StrProc.SplitTildes` | src/server/rl_str_proc.cc:46-54 | the last loop gives the nonempty fields between tildes |
| `StrProc.StrProc.constructor` | src/server/rl_str_proc.cc:19-55 | the object holds the fields of the text |
| `StrProc.SplitsExactly` | src/server/rl_str_proc.cc:19-55 | they are the nonempty fields between tokens of the cleaned text if and only if there is no `~` in it |
| `StrProc.LinesSplit` | src/server/rl_str_proc.cc:32-36 | three lines or more are split at the newlines and empty ones dropped |
| `StrProc.TwoLines` | src/server/rl_str_proc.cc:32-36 | exactly two lines come as one field, run together |
| `StrProc.TabField` | src/server/rl_str_proc.cc:23-30 | a tab comes as four blanks |
| `StrProc.FieldsJoin` | src/server/rl_str_proc.cc:19-55 | joined neat fields come apart again, with or without a newline at the end |
| `Json.ArraySpelled` | src/server/http.cc:354-364 | an array of texts that each spell a value spells the array, wherever it stands |
| `Json.ObjectSpelled` | src/server/http.cc:345-376 | the same for an object and its members |
| `Http.JSON.AddArray` | src/server/http.cc:237-257 | a nonempty text is appended, quoted unless it already is, under a nonempty key; no stored array is ever empty |
| `Http.JSON.AddValue` | src/server/http.cc:262-269 | a nonempty value replaces the one under its key |
| `Http.JSON.AddNumber` | src/server/http.cc:274-284 | a number is stored as `%ld` prints it |
| `Http.SignedReads` | src/server/http.cc:274-284 | numbers below 2^63 read back, the others come as negative |
| `Http.JSON.Serialize` | src/server/http.cc:345-376 | whatever the order of keys, the text appended is the comma join of the members in braces, or nothing; arrays of texts that were quoted read back as arrays of those strings |
| `Http.Trimmed` | src/server/http.cc:358-376 | the loops print exactly one comma too many, the last |
| `Http.Printed` | src/server/http.cc:345-376 | the text of an object with an array and a value |
| `Http.ReadBack` | src/server/http.cc:345-376 | by sections 4 and 5 of RFC 8259 the text reads back as the values its elements spell, and may be stored in another object |
| `Http.ReadBackStrings` | src/server/http.cc:237-257 | texts that `AddArray` quoted read back as the strings they write, values and keys too |
| `Http.AnswerMessage` | src/server/confmode.cc:715-730 | escaping, storing and printing an output gives its answer, and nothing for no output |
| `Http.AnswerExactly` | src/server/confmode.cc:715-730 | a client reads the output itself out of the answer if and only if there is some and it holds no unescaped control character |
| `Digits.ReadPrinted` | src/server/common.cc:99-104 | a printed number reads back |
| `Digits.ValueConcat` | src/server/common.cc:99-104 | decimal digits count by their position |
| `Digits.HexConcat` | src/server/confmode.cc:554-555 | hexadecimal digits count by their position |
| `Digits.OneDigit` | src/server/confmode.cc:554-555 | and a single one by its place among the digits |
| `Digits.SessionIdInjective` | src/server/confmode.cc:554-555 | the decimal session id reads as the number of the sixteen hexadecimal digits, which is below 2^64, and different ids give different ones |
| `Login.RunOnePerUser` | lib/Vyatta/WebGUI2/SessionKey.pm:76-119 | over every run there is at most one row per user and address |
| `Login.GrantedExactly` | src/server/authsession.cc:223-317 | a request is let in if and only if less than 1800 seconds ago a login answered with its key or a request with it was let in and renewed it |
| `Login.LevelExactly` | lib/Vyatta/WebGUI2/SessionKey.pm:90-119 | over every run key and level of a row are those of the last login of its user from its address |
| `Login.GrantedUser` | src/server/authsession.cc:244-262 | a request runs as a user to whom a login has answered with its key, at the level of that login, the last of that user from that address |
| `Login.NeverAgain` | src/server/authsession.cc:244-317 | a key that has left the table is not let in before a login answers with it |
| `Login.ExpiredGone` | src/server/authsession.cc:244-317 | a request with a key leaves no timed-out row behind, and every other |
| `Login.NewKeyAfterTimeout` | lib/Vyatta/WebGUI2/SessionKey.pm:112-119 | so after a time-out the next login gets a key of its own |
| `Login.OrderKept` | lib/Vyatta/WebGUI2/SessionKey.pm:76-119 | over any further events surviving sessions keep their order, key, user and address, and new ones come behind |
| `SessionFile.ReadEntry` | src/server/authsession.cc:223-235 | `StrProc` finds key, user, time, address and level in a line |
| `SessionFile.ReadBlank` | src/server/authsession.cc:223-235 | a blank line reads as time zero and no key |
| `SessionFile.PerlEntry` | lib/Vyatta/WebGUI2/SessionKey.pm:84-88 | `split` finds the five fields of the same line |
| `SessionFile.PerlBlank` | lib/Vyatta/WebGUI2/SessionKey.pm:84-88 | a blank line has one field and is skipped |
| `SessionFile.RowIs` | lib/Vyatta/WebGUI2/SessionKey.pm:118 | the text of a line, field by field |
| `SessionFile.AuthTurn` | src/server/authsession.cc:228-317 | what one turn writes, and user and level if it is the session asked for |
| `SessionFile.KeyTurn` | lib/Vyatta/WebGUI2/SessionKey.pm:81-103 | what one turn writes, the doubled line end included, and the key if the row is the user's |
| `SessionFile.SessionFile.Authorized` | src/server/authsession.cc:223-317 | the parsed rows change as the row rewrite says wherever blank lines stand, and user and level are those of the last live row with the key |
| `SessionFile.SessionFile.GetKey` | lib/Vyatta/WebGUI2/SessionKey.pm:49-119 | the same for a login, and the key is the old one of that user and address or the new one |
| `Registry.FileExactly` | src/server/common.cc:329-376 | a session file gives back owner and description if and only if the owner's name has no slash |
| `Registry.FirstLineOnly` | src/server/common.cc:363-373 | of a description of several lines only the first is read, with its newline |
| `Registry.ConfMode.CreateFile` | src/server/common.cc:329-345 | one entry is written as it will be read, the others stay |
| `Registry.ConfMode.ReadFile` | src/server/common.cc:354-376 | the entry of an id, if there is one |
| `Registry.ConfMode.ReadFromTag` | src/server/common.cc:386-413 | the first session in directory order with that owner and nonempty description |
| `Registry.ShortPassedOver` | src/server/common.cc:396-399 | file names of less than 22 characters are passed over |
| `Registry.ConfMode.Process` | src/server/confmode.cc:125-589 | outcome and registry after any request |
| `Registry.OwnedOnly` | src/server/confmode.cc:405-589 | whatever the registry, a request reaches only a session whose stored owner is its user |
| `Registry.ReachedExactly` | src/server/confmode.cc:500-589 | it reaches one if and only if the name in it is the id of the user's session, or no id and the description of one |
| `Registry.NoDupExactly` | src/server/confmode.cc:533-569 | a request keeps descriptions apart if and only if it is not a creation whose duplicate test is made for another user |
| `Registry.RunNoDupExactly` | src/server/confmode.cc:533-569 | the same over every run |
| `Registry.TwiceIsSane` | src/server/confmode.cc:533-569 | a run of three creations after which one user has two sessions of one description |
| `Registry.GoneByOwner` | src/server/confmode.cc:500-512 | over every run a session keeps owner and description and goes only by a DELETE of its owner's that reaches it |
| `Registry.LivesExactly` | src/server/confmode.cc:500-512 | over every run a session stays if and only if no DELETE of its owner's reaches it |
| `Registry.DeletedUntilCreated` | src/server/confmode.cc:794-797 | after such a DELETE no request reaches the id before it is created again |
| `Registry.DescriptionFree` | src/server/confmode.cc:533-569 | and its owner may give its description to a new session |
| `Registry.Unnamed` | src/server/confmode.cc:405-512 | without a name, GET lists, DELETE does nothing and PUT is refused, as it is without a command |
| `Registry.OnlyTwoChange` | src/server/confmode.cc:125-589 | only a creation and a DELETE change the registry |

## Left out

- The configuration daemon and its templates: a configuration is a finite tree on which
  `set` inserts a path or replaces the value of a single leaf, `delete` removes a subtree
  and `move` renames an entry; commands succeed.
- `MsgSimple` callbacks, `$VALUE)` locations, timing output, `_find_error`, error entries,
  enumerations and the message object itself; the building of the map in `MapSimple`.
- MsgSimple.Session.SetElem: asks for values that survive the shell: words at tag and multi
  nodes, and where elements are mapped below a value; at other leaves any text of word
  characters and inner blanks, empty or with blanks at the end.  Values of one single-valued
  leaf must be the same stripped (`MsgSimple.PickExactly`), a node without a type takes none,
  sibling locations are prefix-free, and no location is empty at the top, where the line for
  it names no node (`Cli.NoPath`).
- Cli.UnquotedExactly: values of word characters and blanks; what the shell does with its
  other special characters is not modelled.
- Edits.EditAll: asks that sibling names, old and new, do not collide and that nothing old
  hangs below a node that was not there.  Names and values are one word each without single
  quotes, as the commands put them between such quotes and a `move` takes one word off the
  path; a `cfg_path` below the top, which would not follow its parent's new name, parameters
  without a mapped location, and `addChild`, `setParent`, `addRawTag` and `addTag`, which
  build the tree, are not modelled.
- Delivery.AtLeastOnce: one outstanding poll per token, the two `lstat`s of one `<next>` as
  one step, files below 2^32 bytes (`Paging.SizeIsCut` says what happens above) and output
  without NUL; END is an answer of its own, so a body that is literally `END` is not
  confused with it.
- RestClient.Arrives: tokens, commands and user names without `<`, which the message extraction would cut short, and without NUL.
- `kill_all`, and killing processes: of `kill_process` only the effect on the table.
- RestClient.Cmd2Path: characters are bytes; `uri_escape` refuses wider ones.
- Tokenizer.TokenizeOpCmd: is stated for lines on which the scan ends; on the others, which
  `Tokenizer.TerminatesExactly` describes, the source loops for ever.
- Registry.ConfMode.Process: user names without slash, names and descriptions of one line;
  `Registry.FileExactly` says what a slash does.
- RestClient.ArrivesWhole: words with a quote inside are cut up by the scan, and by one word
  also the next; `RestClient.Arrives` covers them only by the line that is scanned.
- The validity checks of the client before a command, the `_read_op_output` polling loop
  and the query of the URL.
- `add_hash` of `JSON`, which nothing calls, and white space, numbers, literals and
  surrogate escapes when reading JSON: the server prints none of them itself.
- Http.ReadBack: elements passed as already quoted must spell a value;
  `Http.ReadBackStrings` asks nothing of that kind.
- Login.GrantedExactly: each call is one step, the clock never goes back, the account lookup
  succeeds; the `Lock` class, the early returns of `authorized` after a failed lookup and the
  cutting of the key out of the request header are not modelled.
  Where several rows have one key, the flag for service users is set if any of them asks for
  it; the model gives the level of the last.
- SessionFile.SessionFile.GetKey: names, addresses and levels without comma, `~`, tab or
  newline, as the comma-separated file needs them.
- Registry.RunNoDupExactly: a generated id is sixteen characters and not in use, the directory
  lists every session file, and the daemon can be reached when a session is discarded.
- The commands that a reached configuration session runs, and their output but for its escaping.
- Fixed buffer sizes, `sprintf` overruns, failing file operations and stale `errno`.
- PAM, user and group switching, fork and exec, sockets, FCGI, curl, jansson and configd.
- Template parsing in `configuration.cc`, dispatch in `process.cc`, application and service
  mode, permissions, and the shell and Perl scripts.
