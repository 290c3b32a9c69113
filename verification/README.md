# nand2tetris HDL parser, modelled in Dafny

This project models the parser of the nand2tetris hardware description
language in `src/lib.rs`. The parser is written with nom combinators. A chip
declaration has these pieces, in order:

- `CHIP <name> `;
- an `IN` pin list ended by `;`;
- an `OUT` pin list ended by `;`;
- a `PARTS:` line;
- part instantiations, each on its own line behind a tab: `\tName(a=x, b=y);`.

The parser returns a `Chip` made of a name, the input pins, the output pins and
the parts. Each `Part` holds a name plus two pin lists paired by position: the
`internal` pins (the text before the first `=`) and the `external` pins (the text
between the first `=` and any second `=`, or the end).

The model has five modules:

- `Strings` (`strings.dfy`): the string operations the parser relies on.
  - `Find` is the first-occurrence search of Rust's `str::find`.
  - `RemoveSpaces` is `replace(" ", "")`.
  - `Split` is `split` on a one-character pattern.
  - `Join` glues pieces together with the separator. `Split` undoes it (`SplitJoin`), provided the list is non-empty and no piece holds the separator.
- `Combinators` (`combinators.dfy`): the nom combinators `tag` and `take_until`, with `IResult` reduced to `Error | Ok(rest, value)`.
- `Hdl` (`hdl.dfy`): the parsers `part`, `inputs`, `outputs`, `parts` and `parse_hdl`, each as a pure function over `seq<char>`.
  - `part` is split into `ScanPart`, which does the scanning, and `Wire`, which is the loop that pairs the pins.
  - `many0(part)` is `ManyParts`.
  - The header scan of `parse_hdl` is `ChipName`, `Interface` and `Header`.
- `HdlProperties` (`hdl_properties.dfy`): converse and characterisation lemmas.
  - Laid-out text is read back exactly.
  - A part is found exactly when the text has a tab, a later `(` and a later `)`.
  - `many0` returns the one maximal chain of parts.
  - Where a document is read: the inputs at the first `IN `, the outputs at the first `OUT ` after the inputs' `;`, and the parts after the first `PARTS:\n` after the outputs' `;`. A document is read exactly when those stages succeed.
- `RoundTrip` (`roundtrip.dfy`): a printer for chips in the layout the parser reads.
  - The headline lemma: parsing a printed chip gives the chip back.
  - The printer exists only to state this property; the repository has no printer.

Where the parser would panic, the model adds a precondition. This happens at the
`a[1]` index, for a pin segment without `=`. The predicates `Wired`,
`PartWired`, `AllWired`, `PartsWired` and `HdlWired` state that no panic
occurs, and each parser that can reach the index requires the matching one.

The nand2tetris HDL also allows:

- `//` and `/** */` comments;
- free layout (any whitespace between tokens);
- bus indices and sub-buses such as `a[3]` and `a[0..7]`.

`src/lib.rs` implements none of these, and the model follows the code. Some
consequences:

- Only tab-introduced parts are read. A part line indented with spaces is skipped when a tab follows later in the text, because `take_until("\t")` scans past it. Otherwise the parts end there. Either way the parse still succeeds.
- The header must be `PARTS:` followed directly by a newline.
- A part with an empty pin list panics, because its single segment `""` has no `=`.
- The `);` after a part is left in the remaining text; the next part's scan to the tab skips it.
- Pins are plain text.
- Failure is a single opaque `Error`.

## Model

| member | source | states |
|---|---|---|
| Strings.Find | src/lib.rs:27-31 | `take_until`'s search: the result is an occurrence of the pattern with none before it, and `None` means the pattern occurs nowhere |
| Strings.RemoveSpaces | src/lib.rs:32-33 | deleting spaces leaves no space and keeps the count of every other character |
| Strings.RemoveSpacesAppend | src/lib.rs:33 | deleting spaces distributes over concatenation, so the other characters keep their order |
| Strings.RemoveSpacesFixed | src/lib.rs:53 | deleting spaces changes a text exactly when it holds a space |
| Strings.Split | src/lib.rs:34 | `split(",")` yields one more piece than there are separators; no piece holds the separator; joining the pieces gives back the text; empty text yields one empty piece |
| Strings.SplitJoin | src/lib.rs:53 | splitting a joined list of separator-free pieces gives back the pieces |
| Strings.SplitHead | src/lib.rs:43-44 | `a[0]` of a split is the prefix up to the first separator, or the whole text when there is none |
| Strings.SplitKeepsOut | src/lib.rs:34 | a character absent from the text is absent from every piece |
| Combinators.Tag | src/lib.rs:28 | `tag` succeeds exactly when the literal is a prefix, and leaves the text after it |
| Combinators.TakeUntil | src/lib.rs:27 | `take_until` splits the input into the text taken and a rest that starts with the pattern |
| Combinators.TakeUntilChar | src/lib.rs:52 | for a one-character pattern, `take_until` succeeds exactly when the character occurs; the text taken does not contain it |
| Combinators.TakeUntilAfter | src/lib.rs:72-78 | when the pattern starts the second part and its first character is absent from the first, `take_until` returns exactly that split |
| Hdl.Segments | src/lib.rs:32-36 | the segments are non-empty in number, hold no space or comma, and rejoined with `,` give the pin text without spaces |
| Hdl.PinList | src/lib.rs:50-60 | succeeds exactly when the marker is a prefix and a `;` follows it; the rest starts at the first `;`; the pins are the space-free pieces of the text between |
| Hdl.Inputs | src/lib.rs:50-54 | `inputs` succeeds exactly when the text starts with `IN ` and a `;` follows. The rest starts at the first `;`. The list is non-empty, no pin holds a space or `,`, and the pins join back to the text between, without spaces |
| Hdl.Outputs | src/lib.rs:56-60 | the same for `OUT `: the rest starts at the first `;`. The list is non-empty, and the pins are the space- and comma-free pieces of the text between; a pin may itself be empty, as in `OUT a,,b;` |
| Hdl.Wire | src/lib.rs:42-46 | the loop pushes one internal and one external pin per segment, and each pair is that segment's first two `=` fields |
| Hdl.SplitFields | src/lib.rs:43-45 | a segment holding `=` splits into at least two fields, so `a[1]` exists; `a[0]` and `a[1]` form its binding |
| Hdl.BindingUnique | src/lib.rs:43-45 | a segment has only one binding, so the pins pushed are determined by the segment |
| Hdl.FieldLength | src/lib.rs:43-44 | the left field of a binding ends at the first `=` |
| Hdl.SkipPastTab | src/lib.rs:27-28 | succeeds exactly when the text holds a tab; resumes just past the first tab |
| Hdl.NameAndPins | src/lib.rs:29-31 | the name runs to the first `(` and the pin text from there to the first `)`; the rest starts with `)` |
| Hdl.ScanPart | src/lib.rs:27-31 | a found part lays the text out as a tab-free prefix, a tab, the name, `(`, the pins, then a rest that starts with `)`; at least two characters are consumed |
| Hdl.ParsePart | src/lib.rs:26-48 | `part` succeeds exactly when the scan does; it has equally many internal and external pins, one pair per segment, each pair being the segment's binding |
| Hdl.ManyParts | src/lib.rs:64 | `many0(part)` never fails; it returns a chain of parts parsed one after another, and no part is found where it stops |
| Hdl.Parts | src/lib.rs:62-66 | `parts` succeeds exactly when the text starts with `PARTS:\n`; after that it returns the maximal chain of parts |
| Hdl.ChipName | src/lib.rs:69-70 | succeeds exactly when the text starts with `CHIP ` and a space follows; the name is the space-free text up to that space, and the space stays in the rest |
| Hdl.Interface | src/lib.rs:72-78 | both pin lists read are non-empty, and the scan stops at a `PARTS:\n`, which stays in the rest |
| Hdl.Header | src/lib.rs:69-78 | a read header starts with `CHIP `, has a space-free name and non-empty pin lists, and stops at a `PARTS:\n` |
| Hdl.ParseHdl | src/lib.rs:68-87 | `parse_hdl` succeeds exactly when the header is read. The chip has the header's name and pin lists; every part pairs its pins one to one; the parts are the maximal chain after `PARTS:\n`; the rest is a suffix of the input |
| Hdl.ChainBalanced | src/lib.rs:42-46 | every part of a chain has as many internal as external pins |
| HdlProperties.PinListOfJoin | src/lib.rs:50-60 | pins written out with `,` between them and followed by `;` are read back exactly, leaving the `;` |
| HdlProperties.SegmentsOfJoin | src/lib.rs:32-36 | pins without spaces or commas, joined with `,`, are segmented back into themselves |
| HdlProperties.SkipPastTabOf | src/lib.rs:27-28 | text with a tab after a tab-free prefix is resumed right after that tab |
| HdlProperties.NameAndPinsOf | src/lib.rs:29-31 | a name, `(`, a `)`-free pin text and a rest starting with `)` are read back exactly |
| HdlProperties.ScanPartOfLayout | src/lib.rs:27-31 | the converse of `Hdl.ScanPart`: text in the part layout is scanned into exactly that name, pin text and rest |
| HdlProperties.ScanPartSucceeds | src/lib.rs:27-31 | a part is found if and only if the text holds a tab, a later `(`, and a later `)` |
| HdlProperties.InterfaceReads | src/lib.rs:72-78 | a read interface takes its inputs at the first `IN `, even when the text holds more than one. It takes its outputs at the first `OUT ` after the inputs' `;`, and leaves the text from the first `PARTS:\n` after the outputs' `;` |
| HdlProperties.InterfaceOfFirsts | src/lib.rs:72-78 | the converse: when the pin lists read at those first occurrences succeed and a `PARTS:\n` follows, the interface is read with exactly those lists and that rest |
| HdlProperties.ParseHdlReads | src/lib.rs:68-87 | a read document has the name after `CHIP `. After the name come the inputs at the first `IN `, the outputs at the first `OUT ` after the inputs' `;`, and the chain of parts from just past the first `PARTS:\n` after the outputs' `;` |
| HdlProperties.ParseHdlOfFirsts | src/lib.rs:68-87 | the converse, and so the success condition of `parse_hdl`: a document whose name and stages are read at those first occurrences is read as that chip, with the maximal chain of parts |
| HdlProperties.ManyPartsMaximal | src/lib.rs:64 | any chain of parts that ends where no part is found is exactly what `many0(part)` returns |
| HdlProperties.ChainUnique | src/lib.rs:64 | two chains from the same text that both end where no part is found are equal |
| RoundTrip.SegmentsOfPinText | src/lib.rs:32-36 | the pin text of a printable part is segmented into exactly its bindings |
| RoundTrip.WireOfBindings | src/lib.rs:42-46 | splitting every `internal=external` segment gives back both pin lists |
| RoundTrip.ParsePartText | src/lib.rs:26-48 | a printed part line behind any tab-free text does not panic, and parses back to the part, leaving `);\n` |
| RoundTrip.PartsTextChain | src/lib.rs:64 | printed part lines between tab-free texts are all read back by `many0(part)`, in order |
| RoundTrip.ChainFromTail | src/lib.rs:64 | a part found first, followed by the maximal chain after it, is the maximal chain |
| RoundTrip.ChipNameOf | src/lib.rs:69-70 | a space-free name after `CHIP ` is read up to the space that follows it |
| RoundTrip.InterfaceOf | src/lib.rs:72-78 | the printed `IN` and `OUT` lists are read back as the chip's pin lists, stopping at `PARTS:\n` |
| RoundTrip.HeaderOfText | src/lib.rs:69-78 | the header of a printed chip is read back as its name and pin lists |
| RoundTrip.PartsOfText | src/lib.rs:62-66 | the printed parts section is read back as the chip's parts |
| RoundTrip.ParseChipText | src/lib.rs:68-87 | parsing a printed chip does not panic and gives back exactly that chip |

## Left out

- `src/main.rs`, `src/python.rs` and the benchmarks are not part of this model. They only call `parse_hdl` and print or convert its result.
- The test module at `src/lib.rs:90-96` is not part of this model. It asserts only `2 + 2 == 4`.
- Nom's error payload is not modelled: the error kind and the input position where parsing failed. Every failure is the single `Error` value.
- The panic at `a[1]` (`src/lib.rs:45`) is a precondition (`Wired` and the predicates built on it), not a modelled outcome. The program aborts there, so it has no result to model.
- `many0`'s guard against a parser that consumes nothing is not modelled. `Hdl.ScanPart` ensures that a part consumes at least two characters, so the guard never fires.
- `to_string` copies and the `Vec` allocation are not modelled. Names and pins are values.
- Combinators.TakeUntil: its own contract does not say that the split is at the FIRST occurrence. That is carried by `Strings.Find`, which `TakeUntil` calls, and by `Combinators.TakeUntilChar` for the one-character patterns of `part` and `inputs`; keeping the quantifier out of `TakeUntil`'s contract keeps every parser above it cheap to verify.
- Hdl.Interface: its own contract states only that both pin lists are non-empty and that the rest starts with `PARTS:\n`. Where the pins and the rest come from on any text, and when it fails, is stated by `HdlProperties.InterfaceReads` and `HdlProperties.InterfaceOfFirsts`.
- Hdl.Header: its own contract states the name, non-empty pin lists and a `PARTS:\n` rest. Where the outputs and the rest are read is stated by `HdlProperties.ParseHdlReads`, through `HdlProperties.HeaderStages` and `HdlProperties.InterfaceReads`.
- Hdl.ParseHdl: its own contract ties the chip to `Header`. Where the outputs and the parts are read, and exactly when the parse succeeds, is stated by `HdlProperties.ParseHdlReads` and `HdlProperties.ParseHdlOfFirsts`.
- The parts of the nand2tetris HDL that `src/lib.rs` does not implement are not modelled: comments, free layout, and bus indices and sub-buses.
