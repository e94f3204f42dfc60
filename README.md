# Element registry: a verified model

`js/component.js` is the host side of a WebAssembly UI engine. The engine
builds a DOM tree while holding only integer handles. The registry maps each
handle to a node through the `elements` table. Freed handles go on the
`unused_ids` stack and are reused last in, first out. Click and hover
listeners are filed per handle. Style strings are built from numbers: a
grid-area name from an area id passed as a plain argument, and
grid-template-areas strings and `fr` track lists from 32-bit words the host
reads out of the engine's memory.

The model has four modules:

- `Codec` (`codec.dfy`) holds the string builders. Each one is a
  specification function (`AreaName`, `NarrowText`, `TemplateAreas`,
  `FrTracks`), and each accumulator loop of the host is a method proved to
  compute that function (`EncodeArea`, `DecodeText`, `BuildTemplateAreas`,
  `BuildFrTracks`). It also proves:
  - the properties of the decimal numerals and of the digit-to-letter cipher;
  - the inverse readers `ParseDecimal`, `DecodeArea` and `NarrowBytes`;
  - the row-major layout of the template.
- `GridParse` (`grid_parse.dfy`) gives readers for the template and track
  strings. It proves that they invert the builders, so no two inputs of one
  shape give the same string.
- `Components` (`components.dfy`) is the registry as a class.
  - One method per host operation, each with its whole new state in its
    postcondition and each keeping the invariant `Valid()`. The invariant says:
    - the free list has no repeats;
    - a created node is in at most one slot;
    - identities are fresh;
    - a hover listener is only attached for mouseover.
  - `Valid()` deliberately does not say that every free handle names an empty
    slot; that is the separate predicate `FreeSlotsEmpty`, and the host does
    not keep it. Freeing the root's handle, then `element_render_end` and
    `element_render_begin`, puts the root into a slot that is still on the
    free list (`RootSlotReused`).
  - The browser's side is an abstract record, `Dom`, of what was applied to
    which node.
  - A stale handle gets the status `TypeError`, which stands for the exception
    the host raises.
- `RegistryProperties` (`registry_properties.dfy`) holds properties that take
  several calls: LIFO reuse, repeated removal, render passes, and listeners
  that outlive their removal.

`Wrappers` (`wrappers.dfy`) holds the `Option` type.

Where the code does something a caller might not expect, the model follows the code:
- `element_render_begin` returns the table's previous length. That is 0 only
  on an empty table. It also keeps the free list.
- `element_render_end` empties the table but not the free list, so a handle
  freed in one pass can come back from `element_create` in the next pass,
  past the end of the new table.
- `element_removeHoverEvent` detaches from the click listeners, as written. So
  it never detaches anything (`RemoveHoverEvent`, `HoverListenerSurvives`).

## Model

| member | source | states |
|---|---|---|
| Codec.Decimal | js/component.js:36 | a natural number prints as a canonical numeral: non-empty, digits only, no leading zero, starting with '0' exactly for 0 |
| Codec.DecimalRoundTrip | js/component.js:36 | reading back the printed numeral of n gives n |
| Codec.ParseDecimalSound | js/component.js:36 | every string the reader accepts is the printed numeral of the number it yields |
| Codec.DecimalInjective | js/component.js:36 | distinct numbers print differently |
| Codec.CipherIsLetterOffset | js/component.js:23-34 | the cipher table is defined on exactly the ten digits, and sends digit d to the letter 'a' + d |
| Codec.Cipher | js/component.js:23-34 | looking up a digit gives a letter from 'a' to 'j' at the digit's offset from 'a' |
| Codec.CipherAll | js/component.js:37-39 | ciphering keeps the length, and each position becomes the letter at that digit's offset |
| Codec.AreaName | js/component.js:22-41 | a name has exactly one letter per decimal digit of the id |
| Codec.AreaNameSpelling | js/component.js:22-41 | each letter of a name is 'a' plus the digit in the same place of the numeral |
| Codec.AreaNameRoundTrip | js/component.js:22-41 | decoding the name of n gives n back |
| Codec.DecodeAreaSound | js/component.js:22-41 | any string that decodes to n is exactly the name of n |
| Codec.AreaNameInjective | js/component.js:22-41 | distinct area ids get distinct names |
| Codec.AreaNameIsToken | js/component.js:22-41 | a name holds no digit, no space and no double quote |
| Codec.SingleDigitName | js/component.js:22-41 | a one-digit id is named by that digit's letter alone |
| Codec.AreaNameExamples | js/component.js:22-41 | 0 is named "a", 9 is "j" and 19 is "bj" |
| Codec.EncodeArea | js/component.js:35-40 | the loop over the numeral's characters builds exactly the area name |
| Codec.NarrowText | js/component.js:91-94 | the text has one character per byte, whose code is that byte |
| Codec.NarrowTextRoundTrip | js/component.js:91-94 | reading the characters back as bytes gives the input bytes |
| Codec.NarrowBytesSound | js/component.js:91-94 | a string reads back as bytes only if it is the narrow decoding of those bytes |
| Codec.NarrowTextExample | js/component.js:91-94 | the bytes [72, 105] decode to "Hi" |
| Codec.NarrowTextIsNotUtf8 | js/component.js:91-94 | the two UTF-8 bytes of 'é' decode to two characters, not to 'é' |
| Codec.DecodeText | js/component.js:91-94 | the byte loop builds exactly the narrow decoding |
| Codec.Row | js/component.js:138-139 | row j of the grid has width ids |
| Codec.RowsAreRowMajor | js/component.js:139 | cell (j, i) of the rows is area id j * width + i |
| Codec.RowsDetermineAreas | js/component.js:136-139 | two id lists of the same shape with equal rows are equal |
| Codec.AreaRowPair | js/component.js:138-141 | a row of two ids is their two names, each followed by a space |
| Codec.TemplateOfTwoByTwo | js/component.js:136-143 | a 2 by 2 template is the first row quoted, then the second row quoted |
| Codec.TemplateOfDigits | js/component.js:136-143 | a 2 by 2 template of one-digit ids is the letters, each followed by a space, in two quoted rows |
| Codec.TemplateAreasExample | js/component.js:129-145 | the 2 by 2 grid [0, 1, 2, 3] gives "a b " and "c d " quoted, in row order |
| Codec.TemplatePrefixStep | js/component.js:136-143 | one more pass of the outer loop appends the next row, quoted |
| Codec.AppendAreaRow | js/component.js:138-141 | the inner loop appends row j's names, each followed by a space |
| Codec.BuildTemplateAreas | js/component.js:130-143 | the nested loops build exactly the template string of the grid |
| Codec.FrTracksExamples | js/component.js:149-153 | [1, 2, 3] gives "1fr 2fr 3fr ", and no weights give "" |
| Codec.BuildFrTracks | js/component.js:149-153 | the loop builds each weight's numeral and "fr ", in input order |
| GridParse.SplitTerminated | js/component.js:136-143 | cutting a list of terminated tokens at the terminator gives the tokens back, when none contains it |
| GridParse.SplitSound | js/component.js:136-143 | whatever the cutter accepts is a list of terminated tokens that do not contain the terminator |
| GridParse.AreaRowIsTerminated | js/component.js:138-141 | a row string is the row's names, each followed by a space |
| GridParse.AreaRowRoundTrip | js/component.js:138-141 | reading a row string gives the row of ids back |
| GridParse.AreaRowSound | js/component.js:138-141 | any string the row reader accepts is the row string of the ids it yields |
| GridParse.AreaRowInjective | js/component.js:138-141 | distinct rows give distinct row strings |
| GridParse.TemplateAreasIsRows | js/component.js:136-143 | the template string is the grid's rows, each in quotes, in row order |
| GridParse.TemplateIsTerminated | js/component.js:137-142 | a template is an empty token and a row string per row, each followed by a double quote |
| GridParse.TemplateAreasRoundTrip | js/component.js:129-145 | reading a template string gives the grid's rows back, row-major |
| GridParse.TemplateAreasSound | js/component.js:136-143 | any string the template reader accepts is the quoted row strings of the rows it yields, in order |
| GridParse.TemplateAreasInjective | js/component.js:129-145 | two grids of the same shape with the same template string have the same area ids |
| GridParse.FrTracksIsTerminated | js/component.js:150-153 | a track list is each weight's numeral and "fr", each followed by a space |
| GridParse.FrTokenRoundTrip | js/component.js:151-152 | reading one track token gives the weight back |
| GridParse.FrTracksRoundTrip | js/component.js:147-155 | reading a track list gives the weights back, in order |
| GridParse.FrTracksSound | js/component.js:150-153 | any string the track reader accepts is the track list of the weights it yields |
| GridParse.FrTracksInjective | js/component.js:157-165 | distinct weight lists give distinct track lists |
| Components.TagName | js/component.js:56-72 | tag numbers 2 and 3 give "p" and "button"; every other number gives "div" |
| Components.ClassName | js/component.js:116-121 | exactly the class numbers 1 to 4 have a class name, and none of them is "component" |
| Components.ClassNameInjective | js/component.js:10-15 | distinct class numbers name distinct classes |
| Components.Store | js/component.js:76 | storing at i sets slot i, keeps every other slot, and pads with empty slots when i is past the end |
| Components.Components.constructor | js/component.js:17-20 | the registry starts with an empty table, free list, listener maps and document record |
| Components.Components.RenderBegin | js/component.js:44-53 | the root is appended, the previous length is returned, and the free list is kept |
| Components.Components.RenderEnd | js/component.js:54 | the table is emptied; the free list, listener maps and document are kept |
| Components.Components.Create | js/component.js:56-78 | a fresh node with its tag and class "component" goes under the top of the free list, which is popped, or at the end; no other slot changes |
| Components.Components.Remove | js/component.js:80-86 | an in-range handle that is not free is emptied and pushed on the free list; a free or out-of-range handle is ignored; an empty slot that is not free raises |
| Components.Components.SetTextS | js/component.js:88-96 | the node's text becomes the narrow decoding of the bytes |
| Components.Components.SetClickEvent | js/component.js:98-101 | a fresh listener is filed under the handle even for a stale handle, and is attached to the node for clicks |
| Components.Components.RemoveClickEvent | js/component.js:103-105 | only the listener last filed under the handle is detached for clicks |
| Components.Components.SetHoverEvent | js/component.js:107-110 | a fresh listener is filed under the handle even for a stale handle, and is attached to the node for mouseover |
| Components.Components.RemoveHoverEvent | js/component.js:112-114 | no listener is detached, because the hover listener is looked for among click listeners |
| Components.Components.AddClass | js/component.js:116-123 | a known class is added to the node's classes; an unknown class number does nothing, even for a stale handle |
| Components.Components.ApplyStyle | js/component.js:126 | a live handle's node gets the style property set to the value, and nothing else changes; a null, empty or out-of-range slot raises and changes nothing |
| Components.Components.SetGridArea | js/component.js:125-127 | the node's grid-area becomes the name of the area id |
| Components.Components.SetGridTemplateAreasS | js/component.js:129-145 | the node's grid-template-areas becomes the template string of the grid |
| Components.Components.SetGridTemplateRowsS | js/component.js:147-155 | the node's grid-template-rows becomes the fr track list of the weights |
| Components.Components.SetGridTemplateColumnsS | js/component.js:157-165 | the node's grid-template-columns becomes the fr track list of the weights |
| RegistryProperties.FreeListIsLifo | js/component.js:75-84 | after freeing live handles x and then y, two creates return y and then x, and the free list is as before |
| RegistryProperties.RemoveTwice | js/component.js:80-86 | a second removal of a handle ends as the first did and changes nothing more |
| RegistryProperties.FirstRenderRootIsZero | js/component.js:50-52 | on a fresh registry the root gets handle 0 |
| RegistryProperties.RenderBeginTwice | js/component.js:50-52 | render_begin, then one element_create, then a second render_begin without render_end: the handles are 0, 1 and 2, so the second root does not get 0 |
| RegistryProperties.LifoExample | js/component.js:75-84 | freeing 2 and then 5, two creates return 5 and then 2 |
| RegistryProperties.StaleFreeHandle | js/component.js:54-86 | a handle freed before render_end comes back past the end of the new table, leaving an empty slot that is not free and raises on removal |
| RegistryProperties.RootSlotReused | js/component.js:50-77 | once the root's handle is freed, the next pass's root and its next created node share slot 0 |
| RegistryProperties.ClickListenerRoundTrip | js/component.js:98-105 | a click listener reports its code, and none is left after its removal |
| RegistryProperties.ClickListenerLeak | js/component.js:98-105 | after two click listeners on one handle and one removal, the first still reports its code |
| RegistryProperties.HoverListenerSurvives | js/component.js:107-114 | a hover listener still reports its code after removeHoverEvent |

## Left out

- The document tree is not represented. Nodes are opaque identities, and what
  the host applies to them is kept in the `Dom` record. So these are not
  modelled:
  - `element_appendChild`;
  - the loop in `element_render_begin` that detaches the root's children;
  - the detaching of a node by `element_remove`, including the root's own
    detaching when its handle is removed.
- The wasm memory views (`getMemory().buffer`, `Uint8Array`, `Uint32Array`)
  are not modelled. The bytes and 32-bit words are parameters. The
  little-endian reading of memory is not modelled. Neither is the `RangeError`
  the host raises building a view: when the view does not fit in memory, or
  when a `Uint32Array`'s pointer is not a multiple of 4.
- `Components.Components.SetGridTemplateAreasS` requires the words to number
  `width * height`, which is the length the host asks of the view.
- The `console.log` diagnostics for an unknown tag or class number are not
  modelled. Only their outcomes are: the `"div"` fallback, and doing nothing.
- `customEventCallback` and the timing of event delivery are not modelled. A
  listener is kept as its identity and the code it would report. `Codes`
  states which codes a node would report for an event type.
- Handles and event codes are `nat`. Area ids and weights are `uint32`. Wasm
  arguments that JavaScript would read as negative or non-integer numbers are
  not modelled.
- Components.Components.SetGridArea: takes any `uint32` area id, but the host
  receives its argument as a signed 32-bit number. Ids from 2^31 up are
  in the model's domain but not the host's: there `toString` would give a
  numeral starting with "-", and its name would start with "undefined". The
  model gives letters for them.
- `Codec.Cipher` requires a digit. The host would append `"undefined"` for a
  non-digit character, which a numeral of a natural number cannot contain.
- JavaScript prints numbers of 1e21 and above in exponent form. `Decimal`
  does not model that form, which 32-bit inputs never reach.
- A hole left by a sparse store and a slot set to `null` are both `None`. The
  host treats both the same: reading either gives a falsy value, and using
  either raises.
