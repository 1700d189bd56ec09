# Homework1 notes: a Dafny model

This project models the note store of the `Homework1` Swift playground. It covers:

- the immutable `Note` record and its `Importance` enum;
- the colour helpers: `UIColor(red:green:blue:)` with its range asserts, `UIColor(rgb:)`, `UIColorToHex` and `HexToUIColor`;
- the dictionary form of a note: the `json` property and `parse(json:)`;
- `FileNotebook`, an ordered in-memory list of notes with `addNote` and `deleteNote`.

The playground holds this component twice. `Contents.swift` has the working copy. `Sources/Note.swift` has a near-duplicate, only part of which compiles. Its `Note` record, its channel extraction in `HexToUIColor(rgb:)` and its hex format string are the same as in `Contents.swift`. The model defines each of these once. Rows below cite whichever copy the member's contract is about.

Modules, leaf first:

- `Wrappers` (`wrappers.dfy`): `Option` (Swift's `T?`) and `Result` (a value, or the reason the code traps).
- `HexText` (`hex_text.dfy`): `Int(text, radix: 16)` and the `%0<w>lX` conversion of `String(format:)`.
- `Colors` (`colors.dfy`): a colour is an integer RGB triple. On a 64-bit two's-complement `Int`, `x >> k` is floor division by 2^k and `x & 0xFF` is `x mod 256`.
- `Notes` (`notes.dfy`): `Importance`, `Note`, the dictionary `Json = map<string, Value>` (`Value` stands for Swift's `Any`), `ToJson` and `Parse`.
- `Notebook` (`notebook.dfy`): the `FileNotebook` class and the playground's script.

The model keeps the code's quirks rather than fixing them:

- the `content` key of `json` carries the title;
- `importance` and `color` are always written;
- the blue field is 21 digits wide;
- the leading `#` makes `HexToUIColor` read every written colour as black.

## Model

| member | source | states |
|---|---|---|
| HexText.ParseInt | Homework1.playground/Contents.swift:56 | `Int(hex, radix: 16)`: a result lies in the 64-bit `Int` range and comes from a text of an optional `+`/`-` followed by one or more hex digits and nothing else (so the empty text, `#...`, `0x1F` and `12G4` give nil); digits with no sign or with `+` give their value, or nil above `IntMax`; `-` and digits give the negated value, or nil below `IntMin` |
| HexText.Digits | Homework1.playground/Contents.swift:52 | `%lX` writes at least one upper-case hex digit, with no leading zero, and the digits denote the number written |
| HexText.Pad | Homework1.playground/Contents.swift:52 | `%0<w>lX` writes `max(w, digit count)` upper-case digits that denote the number written |
| HexText.DigitsLength | Homework1.playground/Contents.swift:52 | for `k >= 1`, a number fits in `k` hex digits exactly when it is below 16^k |
| HexText.PadParses | Homework1.playground/Contents.swift:52-56 | `Int(_, radix: 16)` reads back every zero-padded field `%0<w>lX` writes, for values within `Int` |
| HexText.ParseWideField | Homework1.playground/Contents.swift:56 | for upper-case digit strings made of a leading part and 16 or more further digits, the low part denoting at most `IntMax`: the whole is read as the low part when the leading part is zero, and overflows `Int` (nil) otherwise |
| Colors.ColorFromChannels | Homework1.playground/Contents.swift:62-68 | `UIColor(red:green:blue:)` builds the colour exactly when all three channels lie in 0...255, and keeps them; a red channel out of range traps on the red assert |
| Colors.ShiftRight | Homework1.playground/Contents.swift:72-73 | `x >> k` is the arithmetic shift: the result `r` satisfies `r * 2^k <= x < (r + 1) * 2^k`, so it rounds towards negative infinity |
| Colors.LowByte | Homework1.playground/Contents.swift:72-74 | `& 0xFF` always gives a value in 0...255 |
| Colors.ColorFromRgb | Homework1.playground/Contents.swift:70-76 | `UIColor(rgb:)` never trips the channel asserts, for every `Int` |
| Colors.LowBitsOfRgb | Homework1.playground/Sources/Note.swift:46-48 | the channels `(rgb >> 16) & 0xFF`, `(rgb >> 8) & 0xFF` and `rgb & 0xFF`, packed back together, give exactly the low 24 bits of `rgb` (`rgb mod 2^24`) |
| Colors.PackedRoundTrip | Homework1.playground/Contents.swift:70-76 | splitting the packed integer `0xRRGGBB` of a colour gives back that colour |
| Colors.RgbRoundTrip | Homework1.playground/Contents.swift:70-76 | packing the channels of any `rgb` in 0...0xFFFFFF gives back `rgb` |
| Colors.RgbIgnoresHighBits | Homework1.playground/Contents.swift:70-76 | only the low 24 bits of `rgb` reach the colour, so negative values are read through their two's-complement bits |
| Colors.HexToColor | Homework1.playground/Contents.swift:55-58 | text that does not parse, including the empty string and any `#`-prefixed string, gives black (the fallback 0), not white |
| Colors.HexToColorParsed | Homework1.playground/Contents.swift:55-58 | text that parses as `v` gives the colour whose packed value is the low 24 bits of `v`; so `"ff"` is blue and `"-1"` is white |
| Colors.ColorToHex | Homework1.playground/Contents.swift:52 | the written colour is 26 characters: `#`, then two digits for red, two for green and 21 for blue (19 of them '0'), all upper-case hex, each field denoting its channel |
| Colors.HashFields | Homework1.playground/Contents.swift:52 | in `#` + red + green + blue, with two-character red and green fields, the three fields sit at 1..3, 3..5 and 5.. |
| Colors.ChannelWidth | Homework1.playground/Contents.swift:52 | a channel padded to width `w >= 2` is exactly `w` characters, all but the last two '0' |
| Colors.ColorHexFields | Homework1.playground/Sources/Note.swift:43 | each field of the `#%02lX%02lX%021lX` layout, read on its own, gives back its channel |
| Colors.HexRoundTripGivesBlack | Homework1.playground/Contents.swift:52-56 | `HexToUIColor(UIColorToHex(c))` is black for every colour, so the round trip holds only for black |
| Colors.StrippedHexOverflows | Homework1.playground/Contents.swift:52-56 | even without its `#`, the 25-digit string overflows `Int` unless red and green are both 0, and then it reads as the blue channel |
| Colors.SixDigitHexRoundTrip | Homework1.playground/Contents.swift:55-58 | the six-digit layout `RRGGBB` is read back by `HexToUIColor` as exactly the colour it spells |
| Notes.ImportanceFromRaw | Homework1.playground/Contents.swift:79-83 | `Importance(rawValue:)` accepts exactly the three case names, each giving the case of that name |
| Notes.RawValue | Homework1.playground/Contents.swift:79-83 | a raw value is one of the three case names, and `Importance(rawValue:)` maps it back to its case, so no two cases share one |
| Notes.NewNote | Homework1.playground/Sources/Note.swift:12-22 | a constructed note stores exactly the given title, content, importance, uid and colour |
| Notes.DefaultColorIsWhite | Homework1.playground/Contents.swift:11-21 | a note made without a colour is white |
| Notes.ToJson | Homework1.playground/Contents.swift:25-33 | `json` has exactly the keys title, content, importance, uid and color, all strings; `content` holds the title; `importance` is the raw name of the note's importance; `uid` is copied; `color` is `UIColorToHex` of the note's colour, a 26-character `#` string |
| Notes.JsonIgnoresContent | Homework1.playground/Contents.swift:28-29 | notes that differ only in content have the same `json` |
| Notes.Parse | Homework1.playground/Contents.swift:37-43 | `parse` succeeds exactly when all five keys hold strings (`HasText` stands for `json[key] as! String`) and the importance string is a raw name; then each field comes from its own key and the colour from `HexToUIColor`; otherwise the reported trap names a key that is missing or not a string, or the unknown importance string |
| Notes.ParseMissingKey | Homework1.playground/Contents.swift:37-43 | a dictionary in which any of the five keys is missing or holds something other than a string makes `parse` trap |
| Notes.ParseToJson | Homework1.playground/Contents.swift:25-43 | parsing a note's `json` succeeds and gives the same title, importance and uid, the title as content, and black as colour |
| Notes.JsonRoundTripExactly | Homework1.playground/Contents.swift:25-43 | `parse(json)` returns the original note exactly when its content equals its title and it is black |
| Notebook.WithoutUid | Homework1.playground/Contents.swift:106-108 | the filtered list is no longer than the original; no kept note has the uid; a note is kept exactly when it was in the list and has a different uid |
| Notebook.WithoutUidAppend | Homework1.playground/Contents.swift:106-108 | filtering distributes over concatenation, so kept notes stay in their original relative order |
| Notebook.WithoutAbsentUid | Homework1.playground/Contents.swift:106-108 | deleting a uid that no note carries leaves the list unchanged |
| Notebook.WithoutUidIdempotent | Homework1.playground/Contents.swift:106-108 | deleting the same uid twice is the same as deleting it once |
| Notebook.CountUid | Homework1.playground/Contents.swift:106-108 | the number of notes carrying a uid, the reference count that `WithoutUidLength` states the deletion with; it is at most the length of the list |
| Notebook.WithoutUidLength | Homework1.playground/Contents.swift:106-108 | deleting removes exactly as many notes as carry the uid, duplicates included |
| Notebook.FileNotebook.constructor | Homework1.playground/Contents.swift:88 | a new notebook holds no notes |
| Notebook.FileNotebook.AddNote | Homework1.playground/Contents.swift:102-104 | `addNote` appends the note to the end; earlier notes are unchanged and duplicate uids are not checked |
| Notebook.FileNotebook.DeleteNote | Homework1.playground/Contents.swift:106-108 | `deleteNote` leaves exactly the old notes whose uid differs, in order |
| Notebook.PlaygroundScript | Homework1.playground/Contents.swift:119-123 | add, delete "22", add again leaves exactly one note, the one with uid "22" |
| Notebook.AddTwiceThenDelete | Homework1.playground/Contents.swift:102-108 | adding one note twice keeps two entries, and deleting its uid removes both |

## Left out

- Colour components: UIKit stores colours as floating-point components. `UIColorToHex` reads them through `cgColor.components`, `Double`/`Float` and `lround(x * 255)`. The model takes a colour's integer channels as given. It also does not capture that `UIColor.white` and `UIColor.black` are grey-space colours with only two components, so `components?[2]` would trap for them.
- `UUID().uuidString`: the default uid is random, so the model takes the uid as an argument.
- `FileNotebook.filepath`, `saveAllNotes` and `loadNotes`: they do I/O and environment lookup and `print`. `loadNotes` is an empty stub, so no file format exists to model.
- `parse(json:)`, `UIColorToHex()` and `json` in `Sources/Note.swift` do not compile, so they have no meaning to model. `json` fails because it calls `UIColorToHex(self.color)`, but the `UIColorToHex()` declared beside it takes no argument. `json` and `parse` are modelled from `Contents.swift` only.
- Notes.Parse: the source declares it as an instance method returning `Note?`. The model drops the unused receiver. It has no nil case, because the code never returns nil: it traps instead.
- Colors.ColorFromChannels: a failing `assert` is modelled as a trap, as in a debug build. An optimised build skips the asserts, and that is not modelled.
- Values of `[String: Any]` other than strings are stood for by `Number` and `Boolean`. Which non-string value is present makes no difference to `parse`, which traps on all of them.
- Notebook.WithoutUid: uids are compared by their code points. Swift's `!=` on `String` compares by canonical equivalence, so `"\u{E9}"` and `"e\u{301}"` count as one uid there but as two here. The two agree on uids that are already in normal form, which includes every `UUID().uuidString`.
- Notebook.FileNotebook.DeleteNote: it filters with `Notebook.WithoutUid`, so it too compares uids by code points rather than by canonical equivalence.
