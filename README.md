# VCC-Loader deep links and listing display, modelled in Dafny

VCC-Loader is an Electron desktop client for `vpm` package listings, opened through
`vcc://` deep links. Two small pieces of logic in its shell are modelled and proved here:

- **Deep links** (`src/main.js`). `extractDataUrl` finds the first occurrence of
  `vcc://vpm/addRepo?url=` in a string. It captures the rest of that line and returns
  `decodeURIComponent` of the capture. It returns `null` when there is no marker or the
  capture is empty, and it throws a `URIError` on a malformed escape. The start-up loop over
  `process.argv.slice(1)` and the `second-instance` handler classify each command-line
  argument. A `--vcc-url=<x>` argument passes `arg.split('=')[1]` to `extractDataUrl`. A
  `vcc://...` argument passes the whole argument. Every other argument is ignored. The
  result overwrites the module variable `deeplinkingUrl`. The handler also sends each new
  value to the window.
- **Listing display** (`src/renderer.js`). `displayPackages` clears the `packageList`
  element. It then appends one item `"<name> - <version>"` per version key of every package
  of a parsed listing. A missing `packages` or `versions` field counts as empty.

Files:

- `wrappers.dfy` (`Wrappers`): `Option` and `Result`.
- `percent_coding.dfy` (`PercentCoding`): `decodeURIComponent` (`Decode`) and its inverse
  `encodeURIComponent` (`Encode`). Percent-encoding follows section 2.1 of RFC 3986. The
  escaped octets are read as UTF-8 per section 3 of RFC 3629: overlong forms, surrogates
  and values above U+10FFFF are rejected.
- `deep_link.dfy` (`DeepLink`): the regular-expression search (`IndexOf`, `TakeLine`),
  `ExtractDataUrl`, `Split`, argument classification, and the loops as specification
  functions (`Step`, `Run`). The class `MainProcess` holds `deeplinkingUrl`, updated by the
  two loops as methods.
- `renderer.dfy` (`Renderer`): the listing as association lists, its flattening
  (`Flatten`), and the class `PackageList` whose `DisplayPackages` rebuilds the item list with
  nested loops.

Results worth noting:

- A `--vcc-url=` argument can never yield a URL (`DeepLink.FlagNeverYieldsUrl`).
  `split('=')[1]` stops at the second `=`, and the marker itself ends in `=`, so the
  payload never contains the marker. Only the bare `vcc://...` form reaches a URL.
- A non-null result of `extractDataUrl` is never the empty string. So the truthiness test
  in `createWindow` (`src/main.js:85`) holds exactly for a non-null value.

## Model

| member | source | states |
|---|---|---|
| `PercentCoding.Decode` | src/main.js:99 | a successful `decodeURIComponent` is no longer than its input and is empty only for the empty input |
| `PercentCoding.Encode` | src/main.js:99 | the partner encoder emits only unreserved characters, `%` and hex digits, so its output holds no line terminator |
| `PercentCoding.HexDigit` | src/main.js:99 | the hex digit written for a nibble reads back as that nibble |
| `PercentCoding.Utf8RoundTrip` | src/main.js:99 | decoding the UTF-8 octets of any non-ASCII character gives the character back |
| `PercentCoding.Utf8DecodeIsInverse` | src/main.js:99 | an accepted multi-octet sequence is exactly the UTF-8 encoding of the character it yields (no second spelling is accepted) |
| `PercentCoding.DecodeEncode` | src/main.js:99 | round trip: decoding the percent-encoding of any string gives the string back |
| `PercentCoding.DecodeWithoutEscapes` | src/main.js:99 | text without `%` decodes to itself; `+` stays `+` |
| `PercentCoding.DecodePlainPrefix` | src/main.js:99 | a prefix without `%` is copied and the rest decodes on its own, errors included |
| `PercentCoding.DecodeOkPrefix` | src/main.js:99 | any prefix that decodes without error decodes on its own and the rest decodes as if on its own, errors included, so each error rule below holds wherever its escape stands |
| `PercentCoding.DecodeEscapedChar` | src/main.js:99 | an escape group spelling the UTF-8 octets of a character, in upper- or lower-case hex (`%c3%a9`, `%2f`, `%41`), decodes to that character |
| `PercentCoding.TruncatedEscapeThrows` | src/main.js:99 | after a prefix that decodes, a `%` not followed by two hex digits throws |
| `PercentCoding.BadLeadingOctetThrows` | src/main.js:99 | after a prefix that decodes, an escaped octet that cannot start a UTF-8 sequence throws |
| `PercentCoding.MissingContinuationThrows` | src/main.js:99 | after a prefix that decodes, a UTF-8 leading octet throws when the escapes it announces are missing or malformed, or one of them is not a continuation octet (`%E2%82`, `%C3x%41`, `%C3%41`) |
| `PercentCoding.InvalidUtf8Throws` | src/main.js:99 | after a prefix that decodes, well-formed escapes, with upper- or lower-case hex digits, whose octets are shaped like UTF-8 but are not valid UTF-8 (overlong, surrogate, above U+10FFFF) throw |
| `PercentCoding.EscapedSurrogateThrows` | src/main.js:99 | the lower-case `%ed%a0%80` (the surrogate U+D800) throws |
| `DeepLink.IndexOf` | src/main.js:97 | the unanchored search finds the leftmost occurrence of the marker, and None means no occurrence anywhere |
| `DeepLink.TakeLine` | src/main.js:97 | `(.*)` captures the longest prefix without a line terminator, ending at the end of the string or at a line terminator |
| `DeepLink.ExtractDataUrl` | src/main.js:96-102 | a non-null result is a non-empty string |
| `DeepLink.ExtractNullIff` | src/main.js:97-101 | the result is `null` exactly when the marker is absent or its first occurrence is followed by the end or a line terminator |
| `DeepLink.ExtractDecodesCapture` | src/main.js:97-99 | after the first marker, the result is the percent-decoding of the text up to the end of its line, and decoding errors propagate |
| `DeepLink.ExtractTruncatedEscapeThrows` | src/main.js:99 | a `%` anywhere in the capture, not followed by two hex digits, throws when the capture before it decodes |
| `DeepLink.ExtractRoundTrip` | src/main.js:97-99 | the marker followed by the encoding of any non-empty `t`, then nothing or a new line, extracts to `t` |
| `DeepLink.Split` | src/main.js:59 | `split('=')` yields at least one field, no field holds `=`, there is more than one field exactly when `=` occurs, and the first field ends at the first `=` |
| `DeepLink.SplitJoin` | src/main.js:59 | joining the fields of `split` with the separator rebuilds the string |
| `DeepLink.Classify` | src/main.js:58-62 | an argument takes the flag path exactly when it starts with `--vcc-url=`, every `vcc://` argument is passed on whole, and an argument is ignored exactly when it starts with neither |
| `DeepLink.FlagPayload` | src/main.js:58-59 | a `--vcc-url=` argument passes on the text between its first and second `=` |
| `DeepLink.FlagNeverYieldsUrl` | src/main.js:59 | a `--vcc-url=` argument always sets `deeplinkingUrl` to `null` |
| `DeepLink.RunKeepsLastRecognised` | src/main.js:57-65 | without a throw, the loop ends with the extraction of the last recognised argument, or the prior value when none is recognised |
| `DeepLink.RunStopsAtFirstThrow` | src/main.js:57-65 | the first throwing argument stops the loop with its error; state and emitted values are those after the arguments before it |
| `DeepLink.LastEmittedIsFinal` | src/main.js:26-36 | the last value sent is the final `deeplinkingUrl`; when nothing was sent the value is unchanged |
| `DeepLink.MainProcess.constructor` | src/main.js:10-11 | `deeplinkingUrl` starts undefined and nothing has been sent |
| `DeepLink.MainProcess.StartUp` | src/main.js:55-65 | the start-up loop over `argv.slice(1)` leaves `deeplinkingUrl` and the thrown error as `Run` says, and sends nothing |
| `DeepLink.MainProcess.SecondInstance` | src/main.js:19-38 | without a window nothing changes; with one, the same `Run` decides `deeplinkingUrl` and the error, and the values it emits are sent in order |
| `Renderer.FlattenAppend` | src/renderer.js:38-44 | the items of two consecutive runs of packages are those of each, in order |
| `Renderer.FlattenLength` | src/renderer.js:38-44 | the number of items is the sum over packages of their version-key counts |
| `Renderer.FlattenAt` | src/renderer.js:38-44 | no omissions: version `j` of package `i` is the item at position `EntryCount(packages[..i]) + j` |
| `Renderer.FlattenIndex` | src/renderer.js:38-44 | no additions: every item is some package's version at its position |
| `Renderer.PackagesInOrder` | src/renderer.js:38-40 | every item of a package comes before every item of any later package |
| `Renderer.VersionlessPackageContributesNothing` | src/renderer.js:39 | a package without `versions` adds no item and leaves the others unchanged |
| `Renderer.PackageList.DisplayPackages` | src/renderer.js:35-46 | the list becomes exactly the flattening of the listing's packages, whatever it held before, so a repeated call gives the same list and a missing `packages` gives an empty list |

## Left out

- Electron lifecycle and windows are not modelled: the single-instance lock, `app.on`
  handlers, `createWindow`, focusing or restoring the window, and `electron-reload`
  (`src/main.js:1-23, 40-53, 68-93`). Whether a window exists is a parameter of
  `SecondInstance`.
- IPC and logging are not modelled as I/O. `webContents.send` is recorded as the `sent`
  sequence. The `console.log` lines of the start-up loop are only the ghost `logged` values.
  The renderer's `ipcRenderer.on` handlers (`src/renderer.js:8-22`) are left out.
- What happens after an uncaught `URIError` is left out. The loops stop and report the error
  (`failure`). The effect on the Electron process is outside the model.
- `undefined` and `null` are both `None` in `deeplinkingUrl`. The only reader
  (`src/main.js:85`) tests truthiness, and a non-null URL is never empty.
- Fetching and parsing the listing (`src/renderer.js:24-33`) is network I/O.
  `DisplayPackages` takes an already-parsed listing.
- Renderer.PackageList.DisplayPackages: the listing is modelled as association lists in
  JavaScript's key-enumeration order with distinct keys. Three cases are not modelled: non-object JSON values (a string `packages`
  enumerates character indices), a `null` package entry (which makes `packageInfo.versions`
  throw a `TypeError`), and the numeric-key reordering of JavaScript objects.
- DOM wiring, the add button, selection and `alert`s (`src/renderer.js:48-62`) are UI
  and are left out.
- JavaScript strings are UTF-16 code units, but here strings are sequences of Unicode scalar
  values. Lone surrogates in the input, and the surrogate pairs `decodeURIComponent` builds
  for characters above U+FFFF, are not represented.
