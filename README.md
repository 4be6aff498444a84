# i2pd C API bridge

A Dafny model of the C bridge that i2pd offers to programs written in C. The bridge is
`libi2pd_wrapper/capi.cpp`. There are two parts.

- **`str_split`**, the argument tokenizer. `C_InitI2P` receives its command line as one
  string. The bridge copies that string, cuts the copy into words separated by spaces with
  `strtok`, and hands a NULL-terminated vector of the words to the router.
- **The `C_` entry points**, and the global `std::string RET_STR` that every string result
  points into. They cover start-up, the client/server tunnel counts, the tunnel Name/Ident
  queries and the loading of a private-key file.

Files:

- `wrappers.dfy`: the `Option` type. In the model a C pointer result is an `Option`: `None`
  stands for NULL.
- `tokenizer.dfy`: `str_split` and the `strtok` it uses. This part has the imperative
  flavour of the C code:
  - the counting pass is a loop over an `array<char>`;
  - every `strtok` call writes its NUL into that array;
  - the tokens are stored into an `array` of slots.

  The pure function `Tokens` is the specification of what successive `strtok` calls return.
  It is checked against an independent definition: a strict split `Fields`, its inverse
  `Join`, and a filter that drops the empty pieces.
- `engine.dfy`: the router engine of `libi2pd/api.h`, as the bridge sees it.
  - It is an object whose answers are fixed when it is made: how many client and server
    tunnels exist, what a tunnel lookup or a key load returns, and what that call writes
    into the buffer.
  - It records every call it receives.
- `capi.dfy`: class `Bridge`. Its field `retStr` is `RET_STR`. It has one method per `C_`
  function, except the four void lifecycle calls (see "Left out").

## Model

| member | source | states |
|---|---|---|
| Tokenizer.StrtokFindsMaximalRun | libi2pd_wrapper/capi.cpp:55-61 | A token strtok finds is preceded only by delimiters, contains no delimiter, and is followed by a delimiter or by the end of the text |
| Tokenizer.StrtokNoneOnlyDelimiters | libi2pd_wrapper/capi.cpp:55-61 | strtok returns NULL exactly when only delimiters remain |
| Tokenizer.TokensAreNonEmptyAndDelimiterFree | libi2pd_wrapper/capi.cpp:55-62 | Every token handed to strdup is non-empty and contains no delimiter |
| Tokenizer.TokensAreNonEmptyFields | libi2pd_wrapper/capi.cpp:55-62 | The tokens are exactly the non-empty pieces of a strict split on the delimiter, in order |
| Tokenizer.FieldsCountAndShape | libi2pd_wrapper/capi.cpp:55-62 | The strict split has one piece more than there are delimiters, and no piece contains a delimiter |
| Tokenizer.JoinFields | libi2pd_wrapper/capi.cpp:55-62 | Joining the pieces of the split, with the delimiter between them, gives back the text |
| Tokenizer.FieldsJoin | libi2pd_wrapper/capi.cpp:55-62 | Splitting a join of delimiter-free pieces gives back the pieces |
| Tokenizer.FieldsConcat | libi2pd_wrapper/capi.cpp:55-62 | A delimiter separates the pieces before it from the pieces after it |
| Tokenizer.LeadingDelimiterIgnored | libi2pd_wrapper/capi.cpp:55-62 | A delimiter at the front adds no token |
| Tokenizer.ConsecutiveDelimitersCollapse | libi2pd_wrapper/capi.cpp:55-62 | Two adjacent delimiters give the same tokens as one: the split never yields an empty token |
| Tokenizer.TrailingDelimiterIgnored | libi2pd_wrapper/capi.cpp:55-62 | A delimiter at the end adds no token |
| Tokenizer.Terminated | libi2pd_wrapper/capi.cpp:55-61 | The buffer after all strtok calls has the same length as before; each character is either unchanged or a delimiter overwritten with NUL |
| Tokenizer.TerminatedUntouched | libi2pd_wrapper/capi.cpp:55-61 | Where no delimiter follows a token character, strtok writes nothing |
| Tokenizer.YieldIsFirstToken | libi2pd_wrapper/capi.cpp:55-61 | One strtok call returns the first remaining token, or NULL with nothing left; the calls after it return the other tokens |
| Tokenizer.RewriteTerminatesConsumedPart | libi2pd_wrapper/capi.cpp:55-61 | One call leaves, in the part it moves over, exactly the text that the whole loop of calls leaves there |
| Tokenizer.StrtokCall | libi2pd_wrapper/capi.cpp:55-61 | One strtok call on the buffer from a cursor: it returns the next token, writes NUL over the delimiter after it and moves the cursor past that delimiter; nothing before the cursor changes |
| Tokenizer.LastDelimIsLast | libi2pd_wrapper/capi.cpp:27-41 | `last_comma` stays null exactly when the text has no delimiter; otherwise it points at a delimiter that no later delimiter follows |
| Tokenizer.CapacityRule | libi2pd_wrapper/capi.cpp:33-48 | The slot count is one per delimiter, plus one unless the text ends with the delimiter, plus one for the terminator; empty text gets 2 |
| Tokenizer.CountSlots | libi2pd_wrapper/capi.cpp:32-48 | The counting loop and the two increments compute the slot count `Capacity` |
| Tokenizer.TokenCountVsSlots | libi2pd_wrapper/capi.cpp:44-62 | strtok yields no more tokens than there are token slots, and exactly as many if and only if the text is empty or well formed |
| Tokenizer.WellFormedAfterToken | libi2pd_wrapper/capi.cpp:44-62 | A token followed by a delimiter keeps the text well formed if and only if what comes after is empty or well formed |
| Tokenizer.NoOverflow | libi2pd_wrapper/capi.cpp:50-64 | The tokens and the NULL terminator always fit the allocated slots: the assertion at line 59 always holds |
| Tokenizer.ExactFill | libi2pd_wrapper/capi.cpp:44-63 | The assertion at line 63 holds if and only if the text is non-empty, does not start with the delimiter and has no two delimiters side by side |
| Tokenizer.StepAtInnerCut | libi2pd_wrapper/capi.cpp:55-62 | For a token followed by a delimiter, the tokens and the non-empty pieces both begin with that token and continue from the same rest |
| Tokenizer.LoopStep | libi2pd_wrapper/capi.cpp:57-62 | One turn of the strtok loop: the call returns token number n (or NULL exactly when all tokens have been returned), and the part of the buffer before the new cursor is already as the whole loop leaves it |
| Tokenizer.FillTokens | libi2pd_wrapper/capi.cpp:54-62 | The loop stores every token in order into the first slots, and stores exactly as many as there are tokens; the buffer ends up as `Terminated` |
| Tokenizer.VectorSlots | libi2pd_wrapper/capi.cpp:60-64 | Slot i of the vector holds token i, and the slot after the last token holds NULL |
| Tokenizer.StrSplit | libi2pd_wrapper/capi.cpp:22-68 | NULL exactly when malloc fails, and then the text is untouched. Otherwise: a fresh array of `Capacity` slots holding the tokens in order followed by NULL; the tokens fill every slot but the last exactly when the text is well formed; the text ends up as `Terminated` |
| Tokenizer.TwoWords | libi2pd_wrapper/capi.cpp:44-62 | Two delimiter-free words with one delimiter between them give those two tokens and three slots |
| Tokenizer.TwoWordsDoubled | libi2pd_wrapper/capi.cpp:44-62 | With the delimiter doubled there are still two tokens, but four slots |
| Tokenizer.RouterCommandLine | libi2pd_wrapper/capi.cpp:44-63 | `"router --log=stdout"` splits into its two words, which fill its three slots exactly |
| Tokenizer.DoubledSpace | libi2pd_wrapper/capi.cpp:44-63 | `"a  b"` gives the tokens `a` and `b` and leaves one slot unfilled, so the assertion at line 63 fails |
| Tokenizer.LeadingSpace | libi2pd_wrapper/capi.cpp:44-63 | `" a"` gives the one token `a` and leaves one slot unfilled |
| CApi.Bridge.constructor | libi2pd_wrapper/capi.cpp:16 | At program start RET_STR is empty and the engine has not been called |
| CApi.Bridge.InitI2P | libi2pd_wrapper/capi.cpp:75-82 | The caller's buffer and RET_STR are unchanged. The engine is called once more, with the caller's argc and appName. It gets a null vector exactly when malloc fails; otherwise a vector of `Capacity` slots whose first slots are the space-separated tokens of argv followed by NULL; those tokens fill every slot but the last exactly when argv is well formed |
| CApi.Bridge.GetClientTunnelsCount | libi2pd_wrapper/capi.cpp:103-107 | The result is the engine's client tunnel count, unchanged; nothing else happens |
| CApi.Bridge.GetServerTunnelsCount | libi2pd_wrapper/capi.cpp:109-113 | The result is the engine's server tunnel count, unchanged |
| CApi.Bridge.TunnelsField | libi2pd_wrapper/capi.cpp:115-177 | The bridge first asks for the count. If the index is below the count, the engine is asked about the index, RET_STR becomes what the engine wrote into it, and the result is RET_STR exactly when the engine returned 1. Otherwise the result is NULL and RET_STR is unchanged. A string result is always RET_STR's own text |
| CApi.Bridge.GetClientTunnelsName | libi2pd_wrapper/capi.cpp:115-129 | `TunnelsField`, for the name of a client tunnel |
| CApi.Bridge.GetClientTunnelsIdent | libi2pd_wrapper/capi.cpp:131-145 | `TunnelsField`, for the ident of a client tunnel |
| CApi.Bridge.GetServerTunnelsName | libi2pd_wrapper/capi.cpp:147-161 | `TunnelsField`, for the name of a server tunnel |
| CApi.Bridge.GetServerTunnelsIdent | libi2pd_wrapper/capi.cpp:163-177 | `TunnelsField`, for the ident of a server tunnel |
| CApi.Bridge.QueryTwice | libi2pd_wrapper/capi.cpp:16-129 | Two indexed queries in a row: afterwards the first result, if it was not NULL, reads RET_STR's current text, the same text as a non-NULL second result; when the second query reached the engine and the engine wrote into the buffer, that text is what the first result now reads |
| CApi.Bridge.NegativeIndexReachesEngine | libi2pd_wrapper/capi.cpp:117 | A negative index is not rejected: the last call the engine receives is the lookup at that index |
| CApi.Bridge.LoadPrivateKeysFromFile | libi2pd_wrapper/capi.cpp:179-190 | No precheck: the key loader is called with the file name and both types, RET_STR becomes what it wrote, and the result is RET_STR exactly when it returned 1 |
| Engine.Api.InitI2P | libi2pd/api.h:23 | The start-up call is recorded with its argument count, its vector and its application name |
| Engine.Api.GetTunnelsCount | libi2pd/api.h:32-33 | The tunnel count of the requested kind is returned, and the query is recorded |
| Engine.Api.GetTunnelsField | libi2pd/api.h:34-37 | The engine's fixed reply is returned for that kind, field and index; the buffer keeps its content unless the reply writes it |
| Engine.Api.LoadPrivateKeysFromFile | libi2pd/api.h:53 | The same, for the key loader |

Every Bridge method also keeps `Bridge.Valid`. That invariant says that every tunnel lookup
the engine has received came right after a count query for the same kind of tunnel, and
asked for an index below that count.

The code differs from the plain reading "an index query with no tunnels returns NULL". The
only check is `index < count` (capi.cpp:117, 133, 149, 165). So a negative index reaches the
engine even when there are no tunnels of that kind. The model follows the code:
`NegativeIndexReachesEngine` states this outcome.

## Left out

- Engine internals: counts, lookups and key loads are fixed answers given to the engine
  object when it is made. Tunnel configuration, the router's own state and failures inside
  the engine are not modelled.
- `C_StartI2P`, `C_CloseAcceptsTunnels`, `C_StopI2P` and `C_RunPeerTest` (capi.cpp:84-101):
  each only calls the engine function of the same name and returns nothing, so there is
  nothing for the bridge to state about them.
- strtok's hidden static cursor: it is an explicit cursor argument of `StrtokCall`.
  strtok's thread-unsafety is left out, and so are concurrent calls that share `RET_STR`.
- Text without a delimiter: `last_comma` is then still a null pointer when capi.cpp:44
  compares it with an address in the buffer, a comparison C++ leaves unspecified. The model
  assumes what compilers give in practice: a null pointer compares below every address. So
  text without a delimiter always gets a slot for a trailing token: `"router"` gets 2 slots.
  For empty text, `a_str + strlen(a_str) - 1` also points before the buffer; under the same
  assumption empty text gets 2 slots and no token, and the assertion at line 63 would fail
  (`ExactFill` covers this case).
- Tokenizer.StrSplit: the build is taken to have assertions off (NDEBUG). With them on,
  `assert(idx == count - 1)` at capi.cpp:63 aborts the process on every text that is not
  well formed, such as `""`, `" a"` or `"a  b"`. The model instead returns the vector;
  `ExactFill` and the last clause of the ensures say exactly when the abort would happen.
  The assertion at line 59 never fires (`NoOverflow`).
- CApi.Bridge.InitI2P: it assumes the same NDEBUG build. With assertions on, text that is
  not well formed aborts inside str_split and the engine is never called; the ensures
  instead show the engine getting the vector, and state through `WellFormed` exactly which
  texts would abort.
- Memory ownership: the buffer duplicated by `strdup`, the token copies and the vector are
  never freed. Leaks are not modelled.
- strdup failure: it is not modelled, either for the copy in `C_InitI2P` or for the token
  copies. A token is always its text.
- The slots that malloc leaves past the NULL terminator: `StrSplit` says nothing about them.
  They are there only when the text is not well formed.
- The log stream argument of `InitI2P`: it is always `nullptr` from the bridge, so the
  model does not carry it.
- A NULL `appName` or `filename`: the model has a string in both places.
- The conversion of `uint16_t` to the engine's `SigningKeyType` and `CryptoKeyType`: the
  engine receives the two numbers as they are.
- C strings are modelled as the characters before their terminating NUL. So the text
  that str_split and C_InitI2P take holds no NUL, which their `requires` say. A
  `const char *` result is the content of `RET_STR` at the time it is returned, as an
  `Option<string>`. A later call may still overwrite it. That aliasing is stated through
  `TunnelsField`'s `r.value == retStr`, through every method's new `retStr`, and through
  `QueryTwice`. It is not stated as a pointer that follows every later change.
