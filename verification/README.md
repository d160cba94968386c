# mailz-net: user directory and IMAP line handling, in Dafny

This project models the sequential core of the mailz-net mail server:

- **The user and session directory** (`UserModel`). Each account has an address, a password and a list of the IP addresses it is logged in from. The password is stored as whatever the JSON user file held, a string or a bare number. The model covers password normalisation and checking, lookup by address ignoring case, login and logout on the session list, and the display name derived from the address.
- **The IMAP line dispatcher and read loop** (`IMAPServer.ParseCommands`, `HandleClient`, `RespondToClient`). The sockets are taken away. One connection becomes a sequence of input lines, and the server's side becomes the sequence of strings it writes. `None` stands for a line the reader returns as null.
- **The authenticator** (`IMAPServer.Authenticate`). It accepts every credential and writes one line.

Modules:

- `Wrappers`: `Option` and `Outcome`. `Outcome` is a value or the .NET exception thrown.
- `Ascii`: the .NET string primitives the code calls: `ToUpper`, `OrdinalIgnoreCase` and `IsNullOrWhiteSpace`.
- `Text`: `String.Split` and `String.Join` on one separator character.
- `Accounts`: `UserModel.cs`.
- `ImapServer`: `IMAPServer.cs`.
- `ImapAuth`: `IMAPAuthMethod.cs`.

`UserModel` is a class. `email` and `rawPassword` are constants, because only the user-file loader writes them. `sessions` is a `seq<string>` that `Login` and `Logout` reassign. `Login` and `Logout` are specified by the functions `WithSession` and `WithoutSession`, and the lemmas beside those functions prove idempotence, "no duplicates" preservation and removal of only the first occurrence. `HandleClient` is a loop, proved equal to the function `Transcript`, which is the generic read loop `DispatchUntil` applied to the server's end test (`Ends`) and per-line writes (`Written`). Lemmas about `Transcript` show that no line after the first blank one is dispatched, that output keeps input order, and that dispatch ignores case.

Facts about the code that shape the model:

- `ParseCommands` compares the whole upper-cased line with `CAPABILITY` and `OLHA`. There is no tag parsing, no `* CAPABILITY` prefix and no tagged completion. The capability line is `IMAP4rev1 STARTTLS LOGINDISABLED`.
- The `"Hello"` case label can never match, because the switch subject is upper-cased. So `hello` in any case gets no answer (`HelloNeverMatches`, `UnansweredLines`).
- `Authenticate` accepts any credentials and records no session.

## Model

| member | source | states |
|---|---|---|
| `Ascii.ToUpperChar` | Mailz/ITStage/Mail/Account/UserModel.cs:34 | upper-casing leaves no lower-case letter, maps `a`..`z` to `A`..`Z` (32 code points lower) and keeps every other character |
| `Ascii.EqualsIgnoreCase` | Mailz/ITStage/Mail/Account/UserModel.cs:45 | defined as equality of the upper-cased forms: ordinal case-insensitive comparison over the modelled case mapping (see `EqualsIgnoreCasePointwise`) |
| `Ascii.IsWhiteSpace` | Mailz/ITStage/Mail/IMAP/IMAPServer.cs:58 | defined as the code points `char.IsWhiteSpace` accepts: U+0009..U+000D, U+0020, U+0085, U+00A0, U+1680, U+2000..U+200A, U+2028, U+2029, U+202F, U+205F and U+3000 |
| `Ascii.IsNullOrWhiteSpace` | Mailz/ITStage/Mail/IMAP/IMAPServer.cs:58 | defined on a non-null string: empty, or white space followed by a blank rest (every character white space, by `BlankIsAllWhiteSpace`) |
| `Ascii.ToUpper` | Mailz/ITStage/Mail/IMAP/IMAPServer.cs:98 | the result has the input's length and holds the upper-cased character at each position |
| `Ascii.BlankIsAllWhiteSpace` | Mailz/ITStage/Mail/IMAP/IMAPServer.cs:58 | a line is null-or-white-space exactly when every character is white space, so the empty line is blank |
| `Ascii.BlankIgnoresCase` | Mailz/ITStage/Mail/IMAP/IMAPServer.cs:58 | whether a line ends the connection does not change when it is upper-cased |
| `Ascii.UpperHasNoLower` | Mailz/ITStage/Mail/IMAP/IMAPServer.cs:98 | an upper-cased string holds no lower-case letter at any position |
| `Ascii.EqualsIgnoreCasePointwise` | Mailz/ITStage/Mail/Account/UserModel.cs:45 | two addresses are equal ignoring case exactly when they have the same length and agree at every position after upper-casing |
| `Text.Split` | Mailz/ITStage/Mail/Account/UserModel.cs:32-33 | splitting yields at least one segment and no segment holds the separator |
| `Text.Join` | Mailz/ITStage/Mail/Account/UserModel.cs:33 | defined as the segments in order with one separator between neighbours and none at either end (inverse of `Split` by `JoinSplit` and `SplitJoin`) |
| `Text.JoinSplit` | Mailz/ITStage/Mail/Account/UserModel.cs:32-33 | joining the segments of a split with the same separator gives back the string |
| `Text.SplitJoin` | Mailz/ITStage/Mail/Account/UserModel.cs:32-33 | splitting the join of separator-free segments gives back the segments |
| `Text.SplitFreePrefix` | Mailz/ITStage/Mail/Account/UserModel.cs:32-33 | a separator-free prefix is glued to the first segment of the rest |
| `Text.FirstSegment` | Mailz/ITStage/Mail/Account/UserModel.cs:32 | the first segment is the longest prefix without the separator: a prefix, separator-free, and either the whole string or followed by the separator |
| `Text.LaterEmptySegment` | Mailz/ITStage/Mail/Account/UserModel.cs:33-34 | a segment after the first is empty exactly when the string ends with the separator or holds it twice in a row |
| `Text.EmptySegment` | Mailz/ITStage/Mail/Account/UserModel.cs:33-34 | some segment is empty exactly when the string is empty, starts or ends with the separator, or holds it twice in a row |
| `Accounts.WithSession` | Mailz/ITStage/Mail/Account/UserModel.cs:52-58 | after login the IP is present, the old list is an unchanged prefix, at most one entry is added and no other address appears |
| `Accounts.WithoutSession` | Mailz/ITStage/Mail/Account/UserModel.cs:59-62 | logout shortens the list by one exactly when the IP was present |
| `Accounts.WithoutSessionCounts` | Mailz/ITStage/Mail/Account/UserModel.cs:59-62 | logout removes one copy of the IP, if any, and keeps every other entry with its multiplicity |
| `Accounts.Capitalize` | Mailz/ITStage/Mail/Account/UserModel.cs:34 | a segment keeps its length and tail, and its first character is upper-cased |
| `Accounts.CapitalizeAll` | Mailz/ITStage/Mail/Account/UserModel.cs:33-34 | every segment is capitalised, in order |
| `Accounts.LocalPart` | Mailz/ITStage/Mail/Account/UserModel.cs:32 | the local part is the prefix of the address before its first `@`, or the whole address when there is none |
| `Accounts.JoinCapitalized` | Mailz/ITStage/Mail/Account/UserModel.cs:33-34 | capitalising non-empty dot-free segments and joining them with spaces turns each `.` of their dotted join into a space, upper-cases the first character of each segment and keeps the rest |
| `Accounts.UserModel.constructor` | Mailz/ITStage/Mail/Account/UserModel.cs:13-25 | a new user has the given address and password and an empty (so duplicate-free) session list |
| `Accounts.UserModel.Password` | Mailz/ITStage/Mail/Account/UserModel.cs:18-23 | the password text is a string's contents without quotes, a number's digits as written, `True`/`False` for a boolean, a structure's raw text, and `""` for null |
| `Accounts.UserModel.VerifyPassword` | Mailz/ITStage/Mail/Account/UserModel.cs:38-42 | a candidate is accepted exactly when it matches the stored password in length and character for character, case-sensitively |
| `Accounts.NumberAndStringPasswordsAgree` | Mailz/ITStage/Mail/Account/UserModel.cs:18-23 | a password stored as the number `1234` and one stored as the string `"1234"` have the same text and accept the same candidates |
| `Accounts.UserModel.Username` | Mailz/ITStage/Mail/Account/UserModel.cs:27-36 | the name is "Unknown" for an empty address. It throws exactly when the local part is empty, starts or ends with `.`, or holds `..`. Otherwise it is as long as the local part, with `.` turned into a space and each segment's first letter upper-cased |
| `Accounts.UserModel.Find` | Mailz/ITStage/Mail/Account/UserModel.cs:43-46 | the result is none exactly when no address matches ignoring case; otherwise it is the first matching user in directory order |
| `Accounts.FindIgnoresCase` | Mailz/ITStage/Mail/Account/UserModel.cs:45 | two addresses that differ only in letter case find the same user |
| `Accounts.UserModel.IsLoggedIn` | Mailz/ITStage/Mail/Account/UserModel.cs:48-51 | a user is logged in from an IP exactly when the IP occurs in the session list |
| `Accounts.UserModel.Login` | Mailz/ITStage/Mail/Account/UserModel.cs:52-58 | the new list is `WithSession` of the old one, the user is then logged in from the IP, and a duplicate-free list stays duplicate-free; only this user's list may change |
| `Accounts.UserModel.Logout` | Mailz/ITStage/Mail/Account/UserModel.cs:59-62 | the new list is `WithoutSession` of the old one; on a duplicate-free list the user is then logged out from the IP and the list stays duplicate-free |
| `Accounts.LoginIdempotent` | Mailz/ITStage/Mail/Account/UserModel.cs:52-58 | logging in twice from the same IP gives the same list as logging in once |
| `Accounts.LoginKeepsNoDuplicates` | Mailz/ITStage/Mail/Account/UserModel.cs:52-58 | login preserves "no IP occurs twice" |
| `Accounts.LogoutRemovesFirst` | Mailz/ITStage/Mail/Account/UserModel.cs:59-62 | logout is a no-op when the IP is absent; otherwise it deletes its first occurrence and keeps the rest in order |
| `Accounts.ShiftedRemoval` | Mailz/ITStage/Mail/Account/UserModel.cs:59-62 | removing position k+1 is keeping the head and removing position k of the tail |
| `Accounts.LogoutKeepsNoDuplicates` | Mailz/ITStage/Mail/Account/UserModel.cs:59-62 | on a duplicate-free list, logout keeps it duplicate-free and leaves the IP absent |
| `Accounts.LogoutUndoesLogin` | Mailz/ITStage/Mail/Account/UserModel.cs:52-62 | for an IP not yet in the list, logging in and then out gives back the list from before the login |
| `Accounts.RemoveAppended` | Mailz/ITStage/Mail/Account/UserModel.cs:56-61 | removing an IP appended to a list that did not hold it restores the list |
| `ImapServer.RespondToClient` | Mailz/ITStage/Mail/IMAP/IMAPServer.cs:78-93 | what is written is the response followed by exactly `\r\n` |
| `ImapServer.ParseCommands` | Mailz/ITStage/Mail/IMAP/IMAPServer.cs:95-108 | a line gets either no response, the capability line or the greeting, and nothing else |
| `ImapServer.DispatchTable` | Mailz/ITStage/Mail/IMAP/IMAPServer.cs:98-105 | a line gets the capability line exactly when its upper-case form is `CAPABILITY`, and the greeting exactly when it is `OLHA` |
| `ImapServer.AnsweredLength` | Mailz/ITStage/Mail/IMAP/IMAPServer.cs:98-107 | only a line of exactly 10 or 4 characters is answered, so tagged, padded or abbreviated commands are not |
| `ImapServer.HelloNeverMatches` | Mailz/ITStage/Mail/IMAP/IMAPServer.cs:98-104 | no upper-cased line equals `"Hello"`, so that case label is dead |
| `ImapServer.GreetingInAnyCase` | Mailz/ITStage/Mail/IMAP/IMAPServer.cs:98-105 | `Olha` gets the greeting |
| `ImapServer.UnansweredLines` | Mailz/ITStage/Mail/IMAP/IMAPServer.cs:98-107 | `hello`, `HELLO`, the tagged `a1 CAPABILITY` and `CAPABILITY ` with a trailing space get no response |
| `ImapServer.LineText` | Mailz/ITStage/Mail/IMAP/IMAPServer.cs:57 | defined as the line read, or `""` when the reader returns null |
| `ImapServer.Ends` | Mailz/ITStage/Mail/IMAP/IMAPServer.cs:57-62 | defined as: the line, with null read as `""`, is empty or all white space |
| `ImapServer.Transcript` | Mailz/ITStage/Mail/IMAP/IMAPServer.cs:53-65 | defined as the concatenated writes of the lines before the first one that `Ends`, in order (its bounds are `TranscriptWrites`, its equality with the loop is `HandleClient`) |
| `ImapServer.Written` | Mailz/ITStage/Mail/IMAP/IMAPServer.cs:64 | dispatching one line writes at most one string |
| `ImapServer.TranscriptWrites` | Mailz/ITStage/Mail/IMAP/IMAPServer.cs:53-65 | a connection writes no more strings than it has lines, and every string is one of the two responses followed by CRLF |
| `ImapServer.HandleClient` | Mailz/ITStage/Mail/IMAP/IMAPServer.cs:43-76 | the loop dispatches exactly the lines before the first null or blank one, writes at most one string per dispatched line, and writes exactly `Transcript` of the input |
| `ImapServer.TranscriptAt` | Mailz/ITStage/Mail/IMAP/IMAPServer.cs:57-64 | from a blank line on nothing is written; otherwise the line's writes come first, then the rest's |
| `ImapServer.DispatchStep` | Mailz/ITStage/Mail/IMAP/IMAPServer.cs:64 | appending the framed response of a dispatched line moves the transcript on by one line |
| `ImapServer.NothingAfterEnd` | Mailz/ITStage/Mail/IMAP/IMAPServer.cs:53-65 | whatever follows the first blank line never changes the output |
| `ImapServer.DispatchAppend` | Mailz/ITStage/Mail/IMAP/IMAPServer.cs:53-65 | for any end test and any per-line answer, a read loop over lines none of which ends it, followed by more lines, writes their answers followed by the rest's |
| `ImapServer.TranscriptAppend` | Mailz/ITStage/Mail/IMAP/IMAPServer.cs:53-65 | the output of non-blank lines followed by more lines is their output followed by the rest's, in order |
| `ImapServer.TranscriptIgnoresCase` | Mailz/ITStage/Mail/IMAP/IMAPServer.cs:58-98 | two inputs whose lines differ only in letter case produce identical output |
| `ImapAuth.Authenticate` | Mailz/ITStage/Mail/IMAP/IMAPAuthMethod.cs:12-18 | authentication always succeeds and writes exactly one line, `<mechanism> authentication successful`, CRLF-framed |
| `ImapAuth.AcceptsAnyCredentials` | Mailz/ITStage/Mail/IMAP/IMAPAuthMethod.cs:14-17 | the outcome and what is written do not depend on the user name or the password |

## Left out

- The bounded admission `Channel` with its capacity of 10, the worker start-up loop, and the accept loop and shutdown in `Connect`/`Disconnect` (`IMAPServer.cs`): concurrency and socket I/O.
- Sockets and streams (`TcpClient`, `NetworkStream`, `StreamReader`/`StreamWriter`), UTF-8 encoding of responses, and the `try`/`catch` blocks that log and swallow I/O errors. A read error or end of stream is modelled as the end of the input sequence. Writes are modelled as a sequence of strings.
- The `stream.CanRead` check: it holds for an open network stream, so the model assumes it stays true.
- All logging (`DualOutputLog`) and its timestamps: I/O with no effect on results.
- `UserModel.LoadUsers`, the JSON user-file format and the reassignment of `AllUsers`: file I/O and deserialisation. `AllUsers` is the `allUsers` parameter of `Find`.
- The configuration records, `SessionDetail`, the interfaces `IIMapServer` and `IMailTransereAgent`, and the empty SMTP stub: no logic to state.
- Data races on `Sessions` between concurrent connections: the model is sequential.
- `Ascii.ToUpperChar`: does not model culture-sensitive or non-ASCII case mapping (for example `é` to `É` or the Turkish dotted i). Upper-casing covers ASCII letters only, for both `ToUpper` and `OrdinalIgnoreCase`.
- `Accounts.UserModel.Password`: numbers keep their literal text as written in the file. The model does not interpret exponent or fraction forms.
- `Accounts.UserModel.Username`: a null `Email` is not represented, because `email` is always a string. The source returns `"Unknown"` for a null `Email` as well as for an empty one; the model states only the empty case.
- A null `account` in the user file is not modelled. `email` is always a string, and `Find` would throw on a null address.
