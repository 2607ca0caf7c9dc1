# HTML escaping of property rows in Elementa Lab

Elementa Lab's browser page (`docs/app.js`) shows the properties of a
molecule as rows of a key and a value. Each row's markup is built from a
template. The key and the value are first passed through `escapeHtml`,
which calls `String.replace` with the global character class `[&<>"']`
and a lookup table that maps `&`, `<`, `>`, `"` and `'` to `&amp;`, `&lt;`,
`&gt;`, `&quot;` and `&#39;`. Every other character is copied unchanged.

This project models that escaping and the row template as Dafny functions
over `string` (`seq<char>`). It proves that:

- no markup character survives escaping, and every `&` in the output opens one of the five entities;
- the outputs of escaping are exactly the strings with that shape;
- escaping loses nothing: a decoder for the five entities gives the input back, so escaping is injective;
- escaping distributes over concatenation, and copies ordinary characters in order;
- its exact output length, and when it returns its input unchanged;
- it is not idempotent;
- a row carries markup only in its fixed tags, and it parses back to its key and value.

Files:

- `escape.dfy`, module `HtmlEscape`: `escapeHtml` (`Escape`, built from `EscChar` and the `Entity` table), a five-entity
  decoder `Unescape` (an inverse of `Escape`, used to show that escaping loses no information), and the lemmas about them.
- `props_row.dfy`, module `PropsRow`: the row template `RowHtml` and a reader `ParseRow` that takes a row apart
  again, with the lemmas about them.
- `seq_facts.dfy`, module `SeqFacts`: small facts about slicing and concatenating sequences, used by the proofs.

## Model

| member | source | states |
|---|---|---|
| HtmlEscape.Escape | docs/app.js:21-25 | `escapeHtml`: the left-to-right concatenation of `EscChar` over the input, as the global replace does; its properties are the lemmas in the rows below |
| HtmlEscape.Entity | docs/app.js:23 | each of the five characters maps to an entity that starts with `&`, ends with `;`, has no other `&` and holds no `<`, `>`, `"` or `'` |
| HtmlEscape.EscChar | docs/app.js:22-24 | a character outside the class `[&<>"']` is kept as itself; a character's replacement starts with `&` exactly when the regex matches it |
| HtmlEscape.DecodeEntity | docs/app.js:23 | recognises one of the five entities at the start of a text, and reports none exactly when no entity of the table is a prefix |
| HtmlEscape.EscapeConcat | docs/app.js:22 | the global per-character replacement distributes over concatenation: `Escape(a + b) == Escape(a) + Escape(b)` |
| HtmlEscape.EscapeMarkupFree | docs/app.js:21-25 | no `<`, `>`, `"` or `'` occurs anywhere in the output |
| HtmlEscape.EscapeAmpersandsOpenEntities | docs/app.js:23 | every `&` in the output begins one of `&amp;`, `&lt;`, `&gt;`, `&quot;`, `&#39;` |
| HtmlEscape.EscapeWellEscaped | docs/app.js:21-25 | every output is well formed: no markup character, and every `&` opens an entity |
| HtmlEscape.UnescapeEscape | docs/app.js:21-25 | decoding the five entities in the output gives back the input exactly |
| HtmlEscape.EscapeInjective | docs/app.js:23 | two strings escape to the same text if and only if they are equal |
| HtmlEscape.WellEscapedIsEscaped | docs/app.js:21-25 | every well-formed text is the escaping of its own decoding |
| HtmlEscape.EscapeImage | docs/app.js:21-25 | a text is well formed if and only if it is the output of escaping some string |
| HtmlEscape.EscapeLength | docs/app.js:23 | the output length is the input length plus 4, 3, 3, 5 and 4 for each `&`, `<`, `>`, `"` and `'` of the input |
| HtmlEscape.EscapeGrows | docs/app.js:23 | escaping never shrinks a string, and lengthens it if and only if one of the five characters occurs |
| HtmlEscape.EscapeFixedPoint | docs/app.js:22 | escaping returns its input unchanged if and only if none of the five characters occurs in it |
| HtmlEscape.EscapeHasAmpersand | docs/app.js:22-23 | the output contains `&` if and only if the input contains one of the five characters |
| HtmlEscape.EscapeIdempotentIff | docs/app.js:23 | escaping twice gives the same as escaping once if and only if the input has none of the five characters |
| HtmlEscape.NotIdempotent | docs/app.js:23 | `&` becomes `&amp;`, `&amp;` becomes `&amp;amp;`, so a second escaping changes the text |
| HtmlEscape.EscapeSplit | docs/app.js:22 | the output is the escaped prefix, then the replacement of the character at position i, then the escaped suffix |
| HtmlEscape.ReplacementAt | docs/app.js:22 | each character's replacement sits in the output at that character's offset, and an ordinary character appears there unchanged |
| HtmlEscape.CopiedInOrder | docs/app.js:22 | the replacements follow input order: each ends before the replacement of any later character begins |
| PropsRow.RowHtml | docs/app.js:16 | the row template: `<b>`, the escaped key, `</b><span>`, the escaped value, `</span>`; its properties are the lemmas in the rows below |
| PropsRow.ParseTemplate | docs/app.js:16 | the row template filled with two texts free of `<` reads back as those two texts, decoded |
| PropsRow.RowRoundTrip | docs/app.js:16 | the row markup for a key and a value reads back as exactly that key and value |
| PropsRow.RowInjective | docs/app.js:16 | two entries give the same row markup if and only if their keys and values are equal |
| PropsRow.TemplateBrackets | docs/app.js:16 | the template filled with two texts free of markup has `<` and `>` at exactly its eight tag brackets and no quote |
| PropsRow.RowBrackets | docs/app.js:16 | whatever the key and value, a row's `<` and `>` are exactly the brackets of `<b>`, `</b>`, `<span>`, `</span>`, and it holds no `"` or `'` |

## Left out

- `setProps` DOM work (docs/app.js:11-19): clearing `innerHTML`, creating one `div` per entry and appending it is browser I/O. Only the string given to each row's `innerHTML` is modelled.
- `String(v)` (docs/app.js:16): the value is taken to be a string already. Turning a number into text is JavaScript's own conversion and is not modelled.
- String encoding: JavaScript strings are UTF-16 code units, while a Dafny `char` is a Unicode scalar value. Escaping only touches five ASCII characters, so nothing proved here depends on this. Surrogate pairs are not modelled.
- `drawSmiles` (docs/app.js:27-35): a wrapper over the third-party SmilesDrawer parser and SVG renderer.
- `calcBasicProps` (docs/app.js:37-57): calls into OpenChemLib; none of the chemistry is visible in the source.
- `round` (docs/app.js:59-62): floating-point arithmetic with `Math.pow` and `Math.round`.
- `analyze` and the event handlers (docs/app.js:64-106): input reading, `alert` and button wiring are browser I/O.
- app.py: the Streamlit page, the RDKit descriptor calls, the PNG rendering and the OpenAI request are UI, calls into foreign libraries and network I/O.
- No hash, seeded PRNG or music code occurs in docs/app.js or app.py, so none is modelled.
