# Health monitoring system: record store and users file

`health_system.cpp` keeps every registered member in the global `vector<Member> users`.
The whole vector is written to `users.txt` after every change and read back once at process start.
This project models two parts of that program in Dafny.

- **The users file** (`saveUsersToFile`, `loadUsersFromFile`).
  - Each record is a block of lines: username, password, name, medical condition, the six vitals separated by spaces, the number of food entries, then one line per entry.
  - `Codec.Encode` gives the lines of a store and `Codec.Decode` reads them back.
  - `Text` models the stream operations at character level: what `getline` yields, what `operator>>` reads as tokens and integers, and what `operator<<` prints for an integer.
  - The save loop (`UserStore.SaveUsers`, `Codec.WriteMember`) is proved to write `EncodeText(users)`.
  - The load loop (`UserStore.LoadUsers`, `Codec.ReadMember`) is proved to append `DecodeText(file)`.
- **The store operations** on `users`: registration, login, deleting an account, logging food and entering vitals.
  - They are methods of the class `Accounts.UserStore`, which holds the records and the contents of the users file.
  - Each method states its whole new state. Lemmas beside them say which record a login reaches and which one a delete erases, and that the file stays reloadable.

The main results:
- Line level: decoding the encoding of any store gives the same records in the same order (`Codec.DecodeEncode`).
- Character level: the saved file reads back as the same store exactly when no free-text field holds a '\n' (`Codec.ReloadIffLineSafe`).
- `Accounts.Restart` uses this to show that a new process loading the saved file sees the same records.

Two behaviours of the code that are easy to misread:
- Duplicate usernames are not only reachable through their first record. Login matches username and password together, so a later record with the same username and another password logs in to its own record.
- A truncated or garbled file is not simply cut short at the bad block. On a short or garbled block the loader still pushes one record made of stale fields, and once a read there fails, no later record is loaded. Such files are left out (see below).

## Model

| member | source | states |
|---|---|---|
| Text.SplitLines | health_system.cpp:74-77 | the lines successive `getline` calls return; no line holds a '\n' |
| Text.JoinLines | health_system.cpp:54-63 | what writing each line followed by `'\n'` produces: nothing exactly when there are no lines, and otherwise text ending with a '\n' |
| Text.SplitJoinLines | health_system.cpp:54-57 | lines written each followed by '\n' come back from `getline` unchanged exactly when none holds a '\n' |
| Text.Tokens | health_system.cpp:78-79 | the whitespace-separated tokens `operator>>` extracts; each is a non-empty run of non-whitespace |
| Text.TokensOfJoinWords | health_system.cpp:58-60 | words written with one ' ' between them are extracted as the same words in order |
| Text.FormatInt | health_system.cpp:58-61 | what `operator<<` prints for an integer is one token with no '\n' |
| Text.ParseInt | health_system.cpp:78-81 | an integer is read only from a single token with no whitespace in it, and a negative value only from a token starting with '-' |
| Text.ParseFormatInt | health_system.cpp:58-61 | an integer printed by `operator<<` is read back by `operator>>` as the same integer |
| Codec.ParseInt32FormatInt | health_system.cpp:58-59 | extracting into an `int` reads back exactly the `int` that `operator<<` printed; a printed value outside the 32-bit range is a failed read |
| Codec.ParseVitals | health_system.cpp:78-79 | an accepted vitals line holds exactly six tokens, read in order as systolic, diastolic, pulse, respiratory rate, blood sugar and temperature; no food entries come from it |
| Codec.ParseCount | health_system.cpp:80-82 | an accepted count line is one token with no whitespace, read as a non-negative integer; every non-negative integer token is accepted |
| Codec.ParseVitalsLine | health_system.cpp:58-60 | the vitals line reads back as the same six readings |
| Codec.VitalsLineOneLine | health_system.cpp:58-60 | the vitals line holds no '\n' |
| Codec.EncodeMember | health_system.cpp:54-64 | a record's block is 6 + size-of-food-log lines: the four text fields first, in order, and the food entries last, in log order |
| Codec.DecodeMember | health_system.cpp:74-88 | a readable record block uses at least its six fixed lines and no more lines than there are |
| Codec.EncodeMemberLayout | health_system.cpp:53-64 | a record is written as 6 + size-of-food-log lines; the count line reads as the food log's size; the entries follow in log order |
| Codec.DecodeEncodeMember | health_system.cpp:54-64 | reading a record's block back, whatever follows it, gives the same record and uses exactly its lines |
| Codec.EncodeMemberLineSafe | health_system.cpp:54-64 | a record's lines are all free of '\n' exactly when its free-text fields and food entries are |
| Codec.Encode | health_system.cpp:51-67 | the lines of the whole store are empty exactly when the store is, and hold at least six lines per record |
| Codec.EncodeAppend | health_system.cpp:53-65 | one more record at the end of the store adds its block at the end of the file |
| Codec.Decode | health_system.cpp:74-90 | the load loop over lines: a readable file gives at least six lines per record, and no records exactly when it has no lines |
| Codec.DecodeStep | health_system.cpp:74-89 | proof step for the load loop: readable lines start with a readable block; the lines after it read as the remaining records |
| Codec.DecodeAdvance | health_system.cpp:74-89 | proof step for the load loop: after the block read at line `pos`, the rest of the file reads as the records not yet loaded |
| Codec.DecodeMemberFields | health_system.cpp:74-88 | proof step for the load loop: a readable block's record is its four text lines, the parsed vitals and the counted food lines |
| Codec.DecodeMemberAt | health_system.cpp:74-88 | proof step for the load loop: the same field-by-field reading for a block that starts at line `pos` |
| Codec.ReadMember | health_system.cpp:73-88 | the load loop's body reads exactly the record block at line `pos` and returns the line after it |
| Codec.WriteMember | health_system.cpp:54-64 | the save loop's body appends exactly the record's block to the output |
| Codec.DecodeEncode | health_system.cpp:51-92 | loading the lines of any saved store gives back the same records in the same order |
| Codec.EncodeLineSafe | health_system.cpp:51-67 | the saved lines are all free of '\n' exactly when every record is |
| Codec.DecodeLineSafe | health_system.cpp:70-92 | every record loaded from '\n'-free lines has '\n'-free fields |
| Codec.EncodeText | health_system.cpp:51-67 | the saved file is empty exactly when the store is, and otherwise ends with a '\n' |
| Codec.DecodeText | health_system.cpp:70-92 | the records read from a file's characters, when they read; no field of a loaded record holds a '\n' |
| Codec.ReloadIffLineSafe | health_system.cpp:51-92 | the saved file reloads as the very same store exactly when no free-text field holds a '\n' |
| Records.NewMember | health_system.cpp:97-108 | the registered record holds the four answers, every vital zero and an empty food log |
| Accounts.FirstCredentialMatch | health_system.cpp:224-225 | the login search: some position exactly when a record has both credentials; that record has them and no earlier one does |
| Accounts.FirstUsernameMatch | health_system.cpp:176-177 | the delete search: some position exactly when a record has the username; that record has it and no earlier one does |
| Accounts.RemoveFirstUser | health_system.cpp:176-178 | the store after the delete: unchanged when no record has the username, otherwise the first record with it is gone and the rest keep their order |
| Accounts.WithMeal | health_system.cpp:159 | the record after logging a meal: every field but the food log unchanged, and the log gains the meal as its one new, last entry |
| Accounts.WithVitals | health_system.cpp:136-146 | the record after entering vitals: the six readings are the new values; credentials, name, condition and food log unchanged |
| Accounts.FirstCredentialMatchAppend | health_system.cpp:224-225 | the login search over two runs of records: a match in the first run wins, otherwise the second run's match, shifted |
| Accounts.RegisterThenLogin | health_system.cpp:224-225 | after registering, the new credentials log in to the new record unless an earlier record already holds them |
| Accounts.SameCredentialsSameMatches | health_system.cpp:224-225 | both searches depend only on the usernames and passwords of the records |
| Accounts.LogFoodKeepsLookups | health_system.cpp:159 | logging food changes neither which record a login reaches nor which one a delete erases |
| Accounts.InputVitalsKeepsLookups | health_system.cpp:136-146 | updating vitals changes neither which record a login reaches nor which one a delete erases |
| Accounts.RegisterLineSafe | health_system.cpp:99-109 | after a registration the store stays reloadable exactly when none of the four answers holds a '\n' |
| Accounts.LogFoodLineSafe | health_system.cpp:158-159 | after logging a meal the store stays reloadable exactly when the meal text holds no '\n' |
| Accounts.InputVitalsLineSafe | health_system.cpp:136-146 | updating vitals keeps the store reloadable |
| Accounts.RemoveAtLineSafe | health_system.cpp:178 | erasing a record keeps the store reloadable |
| Accounts.CredentialCountAppend | health_system.cpp:224-225 | the number of records holding given credentials adds up over two runs of records |
| Accounts.CredentialCountRemoveAt | health_system.cpp:178 | erasing the record at a position loses one holder of given credentials exactly when that record holds them |
| Accounts.DeleteAccountKeepsSession | health_system.cpp:175-178 | deleting by the session's username, when an earlier record has that username and another password, erases that earlier record, and the session's credentials keep every holder |
| Accounts.DeleteAccountErasesOtherMember | health_system.cpp:175-178 | two members named "alice": the second logs in and deletes, and the first one's record is erased |
| Accounts.DeleteMemberErasesSession | health_system.cpp:178 | erasing the session's own record loses exactly one holder of its credentials |
| Accounts.UserStore.constructor | health_system.cpp:32-33 | a process starts with no records in memory and whatever users file the last run left |
| Accounts.UserStore.SaveUsers | health_system.cpp:51-67 | the file is replaced by the encoding of the whole store; the records are unchanged |
| Accounts.UserStore.LoadUsers | health_system.cpp:70-92 | a missing file leaves the store unchanged; a readable file appends its records in file order |
| Accounts.UserStore.RegisterUser | health_system.cpp:108-110 | exactly one record, the new zero-vitals one, is appended at the end; the rest are unchanged; the file is saved |
| Accounts.UserStore.Login | health_system.cpp:224-243 | login succeeds exactly when some record has both credentials, and logs in to the first such record |
| Accounts.UserStore.DeleteAccount | health_system.cpp:175-187 | found exactly when some record has the username; then the first such record is erased, the others keep their order and the file is saved; otherwise neither store nor file changes |
| Accounts.UserStore.DeleteMember | health_system.cpp:175-179 | the session's own record is erased, the others keep their order, and the file is saved |
| Accounts.UserStore.LogFood | health_system.cpp:159-160 | the member's food log gains the meal as its last entry; every other field and record is unchanged; the file is saved |
| Accounts.UserStore.InputVitals | health_system.cpp:136-147 | the member's six readings are overwritten; the credentials, name, condition, food log and other records are unchanged; the file is saved |
| Accounts.Restart | health_system.cpp:51-92 | a new process that loads the file saved for a '\n'-free store holds the same records |

## Left out

- Console I/O is not modelled: `clearScreen`, `pauseScreen`, the menus of `main`, `login` and `manageAccount`, `viewProfile` and `showRecommendations`, which only prints placeholder lines. Each operation is a method whose inputs are the answers the prompts would read.
- Recovery after a failed menu read (`cin.fail`, `clear`, `ignore` in `main`) is stream-state handling and is not modelled.
- `bloodSugar` and `temperature` are `float` in the program and integers here. The six-significant-digit printing of floats and their parsing are not modelled, so a float that loses digits on saving is not captured.
- Accounts.UserStore.InputVitals takes the six readings as values. What `cin >>` stores on a failed or out-of-range read is not modelled.
- Accounts.UserStore.RegisterUser accepts any strings. `cin >>` reads a username and password without whitespace; the model is more general.
- Accounts.UserStore.LoadUsers covers only files that `Codec.Decode` reads completely in the layout the save loop writes. The following are left out:
  - a short or garbled block, on which the loader pushes one record made of stale fields and a possibly uninitialised count, and after which no record is loaded once a read there has failed;
  - whitespace around the count, and the numbers of a block spread over several lines, which `operator>>` would also accept (extra whitespace inside the vitals line is accepted by the model as well);
  - a negative count, which `size_t` extraction wraps around.
- Text.ParseInt refuses a token that only starts with an integer, such as "12abc". `operator>>` reads 12 from it and the next extraction fails; the model treats the whole block as unreadable.
- Accounts.UserStore.SaveUsers assumes the file opens and every write succeeds. Stream failures are not modelled, and the file is modelled as one string, `None` while it does not exist.
- Accounts.UserStore.Login returns the position of the record the session works on. The dashboard loop that follows is not modelled. In that loop, after "Delete Account" the reference `u` still points into the vector, so the next "Manage Account" acts on whichever record has moved into that slot, or past the end when the session's record was the last one.

## Findings

| source | as written | input that shows it | evidently intended | confidence | as-written member | corrected member |
|---|---|---|---|---|---|---|
| health_system.cpp:208 | the account menu's "Delete Account" calls `deleteAccount(member.username)`, which erases the first record with that username (175-178); registration allows duplicate usernames (109) | register alice/pw1, then alice/pw2; log in as alice/pw2 and choose "Delete Account": alice/pw1's record is erased and alice/pw2's stays | erase the logged-in member's own record | not executed | Accounts.DeleteAccountErasesOtherMember | Accounts.DeleteMemberErasesSession |

`Accounts.DeleteAccountKeepsSession` states the general case of the as-written behaviour. `Accounts.UserStore.DeleteMember` is the corrected operation, which erases the record at the session's position.
