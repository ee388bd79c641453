# Megaverse reconciliation, modelled in Dafny

This project models the core of a client for the Crossmint "megaverse" challenge. A
megaverse is a grid whose positions are empty (SPACE) or hold a POLYANET, a SOLOON with
a colour, or a COMETH with a direction. The client does three things:

- it reads the current grid and the goal grid into flat lists of nodes (`parseMap`);
- it computes the DELETE and POST operations that turn the first list into the second
  (`computeDelta`);
- it sends those operations to the service one at a time, retrying an operation while
  the service answers "rate limited" and stopping at the first other failure (`submit`,
  with the per-kind encoders `submitPolyanet`, `submitSoloon` and `submitCometh`).

Modules, one file each:

- `Wrappers`: `Option` and `Result`.
- `Text`: the JavaScript string operations the code relies on. These are `split` on a
  one-character separator, and `toUpperCase`/`toLowerCase` as far as they can change
  an enum-name lookup.
- `Enums`: the numeric enums `NodeType`, `SoloonColor` and `ComethDirection`. Each is a
  list of member names plus the value of the first member. Name lookup (`key in E ?
  E[key] : undefined`) and value-to-name (`E[value]`) are defined over these lists.
- `Nodes`: `MapNode` (the source's `type` field is called `kind`) and an operation (verb
  and node).
- `Sequences`: flattening a list of lists, with the position of each entry's origin.
- `MapParser`: `parseMap`, as a method with the same nested loops, proved against the
  function `GridNodes`.
- `Delta`: `computeDelta`, as a method with the same loop and early returns, proved
  against `Diff`. `Diff` concatenates the contribution of each position.
- `Submission`: the per-kind encoding (`DispatchOf`) and `submit`. `submit` is a method
  with the same retry loop, proved against the function `Execute`.

The service is a parameter of `Submit`: a script of responses, one per request, in the
order the requests are made. Each response is a success or an Error with its message. A
run ends `Completed` (submit returns undefined), `Aborted` at an operation with a message
(submit returns that Error), or `Pending` when the script runs out while a request is
still due. A run also returns the trace of requests it made.

Two behaviours of the code worth noting:

- A string cell with one part that names no node type (say `"FOO"`) is an empty position,
  not an error. The code initialises the kind to SPACE at src/lib/api.ts:45 and
  overwrites it only when the name is found (line 69).
- A SOLOON or COMETH node without an attribute, or with one outside its enum, makes
  `submitSoloon`/`submitCometh` evaluate `undefined.toString()`. That throws a
  TypeError, which `submit` returns as its result without calling the service
  (lines 230, 238, 250, 257 and 311). The model gives this as `Throw(MissingAttribute)`.

## Model

| member | source | states |
|---|---|---|
| Text.UpperOfLower | src/lib/api.ts:238 | lower-casing an upper-case enum member name gives a lower-case word, and upper-casing that again gives the name back |
| Text.UpperKeepsUnderscore | src/lib/api.ts:68 | upper-casing a token keeps every underscore in it |
| Text.SplitCount | src/lib/api.ts:52-53 | `split("_")` yields one more part than the token has underscores |
| Text.SplitSeparatorFree | src/lib/api.ts:52 | no part produced by `split` contains the separator |
| Text.JoinSplit | src/lib/api.ts:52 | joining the parts of a split with the separator gives back the original string |
| Text.SplitJoin | src/lib/api.ts:52 | splitting a join of separator-free parts gives back exactly those parts |
| Text.SplitPair | src/lib/api.ts:52-54 | `p + "_" + q`, with no underscore in p or q, splits into exactly `[p, q]` |
| Text.SplitWhole | src/lib/api.ts:52-53 | a string without the separator splits into the single part itself |
| Text.CountedSeparatorOccurs | src/lib/api.ts:52-53 | a string with a positive separator count contains the separator |
| Enums.Lookup | src/lib/api.ts:57-58 | `key in E` holds exactly when key is a member name; the value found is in the enum's range and is the value of that name |
| Enums.NameOf | src/lib/api.ts:230 | `E[value]` is defined exactly for values in the enum's range, and is then a member name |
| Enums.IndexOf | src/lib/api.ts:8-27 | the position found holds the key, and no earlier position does |
| Enums.NodeTypeWellFormed | src/lib/api.ts:8-13 | the NodeType member names are distinct upper-case words |
| Enums.SoloonColorWellFormed | src/lib/api.ts:15-20 | the SoloonColor member names are distinct upper-case words |
| Enums.ComethDirectionWellFormed | src/lib/api.ts:22-27 | the ComethDirection member names are distinct upper-case words |
| Enums.LookupNameOf | src/lib/api.ts:57-62 | looking up the name of any in-range value gives that value back |
| Enums.NameOfLookup | src/lib/api.ts:57-58 | the name of a value found by lookup is the key that was looked up |
| Enums.NodeTypeNamesUnderscoreFree | src/lib/api.ts:68-69 | a key containing an underscore names no node type |
| MapParser.RowNodes | src/lib/api.ts:43-90 | a raw row yields exactly one node per cell |
| MapParser.ParseMap | src/lib/api.ts:36-95 | the nested loops produce exactly `GridNodes` of all rows: one node per raw cell, every node on the grid, in strictly increasing row-major order (no gaps, no duplicates) |
| MapParser.GridRowBounds | src/lib/api.ts:42-90 | the nodes of every raw row lie within the list the nested loops produce |
| MapParser.GridPositions | src/lib/api.ts:42-90 | the node for raw cell (r, c) sits at offset CellCount(r) + c and is that cell parsed with row r and column c |
| MapParser.GridNodesAt | src/lib/api.ts:42-90 | in the first n rows, the node of cell (r, c) lies within the list, at offset CellCount(r) + c |
| MapParser.GridNodesLength | src/lib/api.ts:42-85 | the first n rows yield as many nodes as they have cells |
| MapParser.CellCountMonotone | src/lib/api.ts:42-43 | more rows never hold fewer cells |
| MapParser.GridNodesRowMajor | src/lib/api.ts:42-88 | the nodes of the first n rows lie on the grid, in those rows, in strictly increasing row-major order |
| MapParser.NullCell | src/lib/api.ts:45-49 | a null cell is an empty position with no attribute |
| MapParser.OtherCell | src/lib/api.ts:45-46 | a cell that is neither null, a string nor an object with a `type` is an empty position with no attribute |
| MapParser.SoloonToken | src/lib/api.ts:52-58 | `"<c>_SOLOON"` is a SOLOON whose attribute is the colour c names (case-insensitively), absent if c names none |
| MapParser.ComethToken | src/lib/api.ts:52-62 | `"<d>_COMETH"` is a COMETH whose attribute is the direction d names (case-insensitively), absent if d names none |
| MapParser.UnknownSuffixToken | src/lib/api.ts:53-65 | a two-part token whose suffix is not exactly "SOLOON" or "COMETH" (so also "red_soloon") is an empty position |
| MapParser.PlainToken | src/lib/api.ts:66-70 | a token without an underscore is the NodeType it names case-insensitively, otherwise an empty position; it has no attribute |
| MapParser.ManyPartToken | src/lib/api.ts:53-70 | a token with two or more underscores is always an empty position with no attribute |
| MapParser.ObjectCell | src/lib/api.ts:71-82 | the object form copies `type` verbatim; a non-empty direction is read before the colour; an unknown name or no name leaves the attribute absent |
| MapParser.ParsedValuesInRange | src/lib/api.ts:45-82 | every attribute recorded is in 0..3, and every kind derived from a non-object cell is a NodeType value |
| Delta.Contributions | src/lib/api.ts:158-172 | there is one contribution per position |
| Delta.DiffStep | src/lib/api.ts:158-172 | the delta of n + 1 positions is the delta of n positions followed by position n's contribution |
| Delta.ComputeDelta | src/lib/api.ts:135-176 | the length error comes exactly when the lengths differ; for equal lengths the "not sorted" error comes exactly when some position's row or column differ, and otherwise the result is a success holding exactly `Diff` of all positions (so a snapshot against itself succeeds with the empty delta, by `SelfDeltaEmpty`) |
| Delta.SameKindsEmptyDelta | src/lib/api.ts:165 | positions whose kinds agree contribute nothing, even when their attributes differ |
| Delta.SelfDeltaEmpty | src/lib/api.ts:165 | a snapshot diffed against itself yields no operations |
| Delta.DiffShape | src/lib/api.ts:158-172 | every DELETE is a non-SPACE current node and every POST a non-SPACE target node, from a position whose kinds differ; entries are in increasing position order; one position gives at most a DELETE followed by a POST |
| Delta.DiffComplete | src/lib/api.ts:165-171 | at a position whose kinds differ, a non-SPACE current node is deleted and a non-SPACE target node is posted |
| Delta.SwapExample | src/lib/api.ts:158-172 | swapping a POLYANET between two adjacent positions yields exactly POST at the new position, then DELETE at the old one |
| Sequences.FlattenShape | src/lib/api.ts:152-172 | each entry of a flattened list is the entry of its origin list, and origins are in order |
| Sequences.FlattenSplit | src/lib/api.ts:167-170 | flattening a list of lists with one more list appends that list |
| Sequences.FlattenMember | src/lib/api.ts:167-170 | every entry of every inner list is in the flattened list |
| Sequences.FlattenEmpty | src/lib/api.ts:152-172 | flattening lists that are all empty gives the empty list |
| Submission.DispatchCases | src/lib/api.ts:211-294 | only POLYANET, SOLOON and COMETH nodes reach the service, each at its own endpoint with the operation's verb, candidate id, row and column; a SOLOON or COMETH without a valid attribute throws instead, and never with the rate-limit message; only POLYANET requests carry no attribute |
| Submission.AttributeRoundTrip | src/lib/api.ts:230-257 | the attribute sent is named `color` or `direction`; its value is a lower-case word which, read back as the parser reads it, is the node's own attribute, so it is exactly the lower-cased member name |
| Submission.Submit | src/lib/api.ts:261-317 | the loop, with its `i--` retry, ends in exactly the outcome and trace given by `Execute` from operation 0 |
| Submission.ExecuteAttempts | src/lib/api.ts:265-294 | each request is for an operation at or after the start that calls the service, and is that operation's request; one response is used per request |
| Submission.ExecuteFirst | src/lib/api.ts:265-294 | the first request of a run is for the first operation that makes a request: every operation before it is skipped |
| Submission.ExecuteSteps | src/lib/api.ts:265-312 | requests are made in operation order; a rate-limited request is followed by the same request again; an accepted one is followed by a request for a later operation, and every operation in between makes no request |
| Submission.PrependSteps | src/lib/api.ts:265-309 | the retry and advance steps of a trace, including the skipped operations between them, still hold after one attempt is put in front of it |
| Submission.ExecuteLength | src/lib/api.ts:265-313 | a run makes at most one request per response |
| Submission.ExecuteAborted | src/lib/api.ts:295-312 | an aborted run requests no operation later than the one it names; the message is never the rate limit; the cause is that operation's own exception or the failure its last request got |
| Submission.ExecutePending | src/lib/api.ts:265-294 | a run can only be left pending after it has used every response, at an operation that calls the service |
| Submission.ExecuteCompleted | src/lib/api.ts:265-316 | a completed run met no exception and received only successes and rate limits |
| Submission.PrependAccepted | src/lib/api.ts:265 | a success recorded for an operation stays recorded when one attempt is put in front of the trace |
| Submission.CallsAcceptedBeforeStop | src/lib/api.ts:265-316 | every operation that calls the service and comes before the operation the run stopped at (past the end for a completed run, the failing one for an aborted run, the waiting one for a pending run) received a success: no such operation is passed over |
| Submission.CallStep | src/lib/api.ts:295-309 | an accepted request moves the run on to the next operation, a rate-limited one keeps it on the same operation, and either way the request is recorded |
| Submission.RetryThenAdvance | src/lib/api.ts:303-309 | n rate limits followed by a success make n + 1 identical requests for the same operation, then the run continues with the next operation |
| Submission.AbortOnFailure | src/lib/api.ts:310-311 | any other failure ends the run at that operation, with that message, after that one request |

## Left out

- The HTTP layer is left out: `fetch`, URL construction, `res.ok` and `jsonBody.error` inspection, and JSON encoding in `getTargetMap`, `getCurrentMap` and `submitCelestialBody` (src/lib/api.ts:97-133, 178-209). The service is a script of responses, and `parseMap` receives the already-decoded grid.
- The five-second `setTimeout` pause before a retry (src/lib/api.ts:308) is a real-time delay and has no effect on the model.
- `async`/`Promise` semantics are left out. The loop is modelled as sequential.
- src/phase1.ts is left out: reading the environment, console output and exit codes are process plumbing.
- The reverse mapping of TypeScript numeric enums is left out (for example `"0" in NodeType` is true). Name lookups range over member names only.
- Submission.Submit: a response script that runs out ends the run as `Pending`, which the source cannot do. This bounds the model, since a service that keeps answering 429 makes the source loop forever.
- `submit` returning a thrown value that is not an `Error` (src/lib/api.ts:299-301) is left out. The only exception the modelled code can throw is the TypeError of a missing attribute.
- `toUpperCase` is modelled for ASCII letters plus the two non-ASCII letters whose upper case is an ASCII letter (dotless i and long s). Characters that upper-case to several letters cannot complete an enum member name and are left unchanged. `toLowerCase` is modelled for ASCII letters, the only ones that occur in the member names it is applied to.
- A raw cell's `type` is an integer. Non-integer numbers and non-number values copied by the object form are left out.
- A `direction` or `color` that is present but not a string is left out; such values make the source call `toUpperCase` on a non-string.
- The candidate id is a parameter, as it is read from the environment by the caller.
