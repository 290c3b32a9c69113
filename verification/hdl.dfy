/**
 The nand2tetris HDL parser: `CHIP <name> ... IN <pins>; ... OUT <pins>; ...
 PARTS:\n` followed by tab-introduced part instantiations `Name(a=x, b=y)`.
 Every step is a literal-prefix match or a scan to the first occurrence of a
 pattern; pins are plain names, spaces are deleted, no comments or other whitespace are skipped.
 */
module Hdl {
  import opened Strings
  import opened Combinators

  /** One sub-component instantiation: its type name and the pins wired on each side, paired by position. */
  datatype Part = Part(name: string, internal: seq<string>, external: seq<string>)

  /** One parsed chip declaration. */
  datatype Chip = Chip(name: string, inputs: seq<string>, outputs: seq<string>, parts: seq<Part>)

  // ---------------------------------------------------------------------------
  // Pin lists
  // ---------------------------------------------------------------------------

  /** The `,`-separated segments of a pin text once its spaces are deleted. */
  function Segments(pins: string): (r: seq<string>)
    ensures |r| >= 1
    ensures forall i :: 0 <= i < |r| ==> ' ' !in r[i] && ',' !in r[i]
    ensures Join(r, ',') == RemoveSpaces(pins)
  {
    var r := Split(RemoveSpaces(pins), ',');
    SplitKeepsOut(RemoveSpaces(pins), ',', ' ');
    r
  }

  /**
   A labelled pin list: the literal `marker`, then everything up to the first
   `;`, spaces deleted and split on `,`. The `;` stays in the remaining text.
   */
  function PinList(marker: string, text: string): (r: IResult<seq<string>>)
    ensures r.Ok? <==> marker <= text && ';' in text[|marker|..]
    ensures r.Ok? ==> IsSuffix(r.rest, text) && |r.rest| > 0 && r.rest[0] == ';'
    ensures r.Ok? ==> |marker| + |r.rest| <= |text| && ';' !in text[|marker|..|text| - |r.rest|]
    ensures r.Ok? ==> |r.value| >= 1
    ensures r.Ok? ==> forall i :: 0 <= i < |r.value| ==> ' ' !in r.value[i] && ',' !in r.value[i]
    ensures r.Ok? ==> Join(r.value, ',') == RemoveSpaces(text[|marker|..|text| - |r.rest|])
  {
    match Tag(marker, text)
    case Error => Error
    case Ok(t1, _) =>
      TakeUntilChar(';', t1);
      match TakeUntil(";", t1)
      case Error => Error
      case Ok(t2, pins) =>
        PinTextSlice(marker, text);
        Ok(t2, Segments(pins))
  }

  /** Where the pin text of a pin list lies in the whole text. */
  lemma PinTextSlice(marker: string, text: string)
    requires marker <= text && TakeUntil(";", text[|marker|..]).Ok?
    ensures var r := TakeUntil(";", text[|marker|..]);
      && IsSuffix(r.rest, text) && |marker| + |r.rest| <= |text|
      && r.value == text[|marker|..|text| - |r.rest|]
  {
    var t1 := text[|marker|..];
    TakeUntilSuffix(";", t1);
    SuffixTransitive(TakeUntil(";", t1).rest, t1, text);
  }

  /** The input pin list: `IN ` up to the first `;`. */
  function Inputs(text: string): (r: IResult<seq<string>>)
    ensures r.Ok? <==> "IN " <= text && ';' in text[3..]
    ensures r.Ok? ==> IsSuffix(r.rest, text) && |r.rest| > 0 && r.rest[0] == ';'
    ensures r.Ok? ==> 3 + |r.rest| <= |text| && ';' !in text[3..|text| - |r.rest|]
    ensures r.Ok? ==> |r.value| >= 1 && Join(r.value, ',') == RemoveSpaces(text[3..|text| - |r.rest|])
    ensures r.Ok? ==> forall i :: 0 <= i < |r.value| ==> ' ' !in r.value[i] && ',' !in r.value[i]
  {
    assert |"IN "| == 3;
    PinList("IN ", text)
  }

  /** The output pin list: `OUT ` up to the first `;`. */
  function Outputs(text: string): (r: IResult<seq<string>>)
    ensures r.Ok? <==> "OUT " <= text && ';' in text[4..]
    ensures r.Ok? ==> IsSuffix(r.rest, text) && |r.rest| > 0 && r.rest[0] == ';'
    ensures r.Ok? ==> 4 + |r.rest| <= |text| && ';' !in text[4..|text| - |r.rest|]
    ensures r.Ok? ==> |r.value| >= 1 && Join(r.value, ',') == RemoveSpaces(text[4..|text| - |r.rest|])
    ensures r.Ok? ==> forall i :: 0 <= i < |r.value| ==> ' ' !in r.value[i] && ',' !in r.value[i]
  {
    assert |"OUT "| == 4;
    PinList("OUT ", text)
  }

  // ---------------------------------------------------------------------------
  // Parts
  // ---------------------------------------------------------------------------

  /**
   `lhs` and `rhs` are the first two `=`-separated fields of `seg`, the values
   `split("=")` puts at index 0 and 1: `lhs` runs to the first `=`, `rhs` from
   there to the second `=` or the end.
   */
  predicate Binding(seg: string, lhs: string, rhs: string) {
    && '=' !in lhs && '=' !in rhs
    && lhs + ['='] + rhs <= seg
    && (|lhs| + 1 + |rhs| == |seg| || seg[|lhs| + 1 + |rhs|] == '=')
  }

  /** Every segment of the pin text names both sides; otherwise the source indexes past the split and panics. */
  predicate Wired(pins: string) {
    forall i :: 0 <= i < |Segments(pins)| ==> '=' in Segments(pins)[i]
  }

  /**
   The two sides of every segment, in order: what the loop over the segments
   pushes onto `internal` and `external`.
   */
  function Wire(segs: seq<string>): (r: (seq<string>, seq<string>))
    requires forall i :: 0 <= i < |segs| ==> '=' in segs[i]
    ensures |r.0| == |segs| && |r.1| == |segs|
    ensures forall i :: 0 <= i < |segs| ==> Binding(segs[i], r.0[i], r.1[i])
    decreases |segs|
  {
    if |segs| == 0 then ([], [])
    else
      var last := segs[|segs| - 1];
      var prev := Wire(segs[..|segs| - 1]);
      var fields := Split(last, '=');
      SplitFields(last);
      (prev.0 + [fields[0]], prev.1 + [fields[1]])
  }

  /** A segment holding `=` splits into at least two fields, and the first two form its binding. */
  lemma SplitFields(seg: string)
    requires '=' in seg
    ensures |Split(seg, '=')| >= 2
    ensures Binding(seg, Split(seg, '=')[0], Split(seg, '=')[1])
  {
    var k := FindSome('=', seg);
    var rest := seg[k + 1..];
    SplitAt(seg, '=', k);
    FirstSeparator('=', seg, k);
    SplitHead(rest, '=');
    BindingAt(seg, k, Split(rest, '=')[0]);
  }

  /** The text before the first `=`, and after it a field that ends the text or meets another `=`, form a binding. */
  lemma BindingAt(seg: string, k: nat, rhs: string)
    requires k < |seg| && seg[k] == '=' && '=' !in seg[..k]
    requires rhs <= seg[k + 1..] && '=' !in rhs
    requires |rhs| == |seg| - k - 1 || seg[k + 1..][|rhs|] == '='
    ensures Binding(seg, seg[..k], rhs)
  {
    assert seg == seg[..k] + ['='] + seg[k + 1..];
  }

  /** The binding of a segment is unique. */
  lemma BindingUnique(seg: string, l1: string, r1: string, l2: string, r2: string)
    requires Binding(seg, l1, r1) && Binding(seg, l2, r2)
    ensures l1 == l2 && r1 == r2
  {
    FieldLength(seg, l1);
    FieldLength(seg, l2);
    assert l1 == seg[..|l1|] && l2 == seg[..|l2|];
    var k := |l1| + 1;
    var t := seg[k..];
    assert r1 <= t && r2 <= t;
    FieldLength(t, r1);
    FieldLength(t, r2);
    assert r1 == t[..|r1|] && r2 == t[..|r2|];
  }

  /**
   An `=`-free prefix of `t` that ends `t` or is followed by `=` is the text
   before the first `=` of `t`, so its length is fixed by `t`.
   */
  lemma FieldLength(t: string, a: string)
    requires a <= t && '=' !in a
    requires |a| == |t| || t[|a|] == '='
    ensures |a| == match Find("=", t) case Some(k) => k case None => |t|
  {
    forall j: nat | j < |a| ensures !OccursAt("=", t, j) {
      OccursAtChar('=', t, j);
      assert t[j] == a[j];
    }
    OccursAtChar('=', t, |a|);
    if |a| < |t| {
      FindIsFirst("=", t, |a|);
    } else {
      forall j: nat ensures !OccursAt("=", t, j) {
        OccursAtChar('=', t, j);
      }
    }
  }

  /**
   `text` reads: a tab-free prefix, a tab, `name` (no `(`), `(`, `pins`
   (no `)`), then `rest`.
   */
  predicate PartLayout(text: string, name: string, pins: string, rest: string) {
    var k := |text| - |rest| - |pins| - |name| - 2;
    && 0 <= k
    && text == text[..k] + ['\t'] + name + ['('] + pins + rest
    && '\t' !in text[..k] && '(' !in name && ')' !in pins
  }

  /** Skip to and past the first tab. */
  function SkipPastTab(text: string): (r: IResult<string>)
    ensures r.Ok? <==> '\t' in text
    ensures r.Ok? ==> var k := |text| - |r.rest| - 1;
      && 0 <= k && text[k] == '\t' && '\t' !in text[..k] && r.rest == text[k + 1..]
  {
    TakeUntilChar('\t', text);
    match TakeUntil("\t", text)
    case Error => Error
    case Ok(t1, skipped) =>
      match Tag("\t", t1)
      case Error => Error
      case Ok(t2, _) => Ok(t2, skipped)
  }

  /**
   The name up to `(`, then the pin text from after the `(` up to `)`; the
   `)` stays in the remaining text.
   */
  function NameAndPins(text: string): (r: IResult<(string, string)>)
    ensures r.Ok? ==> var (name, pins) := r.value;
      && |name| < |text| && name == text[..|name|] && text[|name|] == '(' && '(' !in name
      && |pins| <= |text| - |name| - 1 && pins == text[|name| + 1..][..|pins|]
      && r.rest == text[|name| + 1..][|pins|..] && ')' !in pins
    ensures r.Ok? ==> |r.rest| > 0 && r.rest[0] == ')'
  {
    TakeUntilChar('(', text);
    match TakeUntil("(", text)
    case Error => Error
    case Ok(t3, name) =>
      match Tag("(", t3)
      case Error => Error
      case Ok(t4, _) =>
        TakeUntilChar(')', t4);
        match TakeUntil(")", t4)
        case Error => Error
        case Ok(t5, pins) => Ok(t5, (name, pins))
  }

  /**
   The scanning half of a part: skip to and past the first tab, take the name
   up to `(`, skip it, take the pin text up to `)`. The `)` stays in the
   remaining text.
   */
  function ScanPart(text: string): (r: IResult<(string, string)>)
    ensures r.Ok? ==> PartLayout(text, r.value.0, r.value.1, r.rest)
    ensures r.Ok? ==> |r.rest| > 0 && r.rest[0] == ')'
    ensures r.Ok? ==> IsSuffix(r.rest, text) && |r.rest| + 2 <= |text|
  {
    match SkipPastTab(text)
    case Error => Error
    case Ok(t2, skipped) =>
      match NameAndPins(t2)
      case Error => Error
      case Ok(rest, (name, pins)) =>
        LayoutOfSteps(text, t2, skipped, rest, name, pins);
        Ok(rest, (name, pins))
  }

  /** ScanPart is SkipPastTab followed by NameAndPins. */
  lemma ScanPartSteps(text: string)
    ensures ScanPart(text) ==
              match SkipPastTab(text)
              case Error => Error
              case Ok(t2, _) => NameAndPins(t2)
  {
  }

  /** The two scanning halves, one after the other, cut the text into the part layout. */
  lemma LayoutOfSteps(text: string, t2: string, skipped: string, rest: string, name: string, pins: string)
    requires SkipPastTab(text) == Ok(t2, skipped)
    requires NameAndPins(t2) == Ok(rest, (name, pins))
    ensures PartLayout(text, name, pins, rest)
    ensures |rest| > 0 && rest[0] == ')'
    ensures IsSuffix(rest, text) && |rest| + 2 <= |text|
  {
    LayoutOfSlices(text, |text| - |t2| - 1, t2, name, pins, rest);
  }

  /** Reassembles the slices ScanPart cuts into the layout it promises. */
  lemma LayoutOfSlices(text: string, k: int, t2: string, name: string, pins: string, rest: string)
    requires 0 <= k < |text| && text[k] == '\t' && '\t' !in text[..k] && t2 == text[k + 1..]
    requires |name| < |t2| && name == t2[..|name|] && t2[|name|] == '(' && '(' !in name
    requires |pins| <= |t2| - |name| - 1 && pins == t2[|name| + 1..][..|pins|]
    requires rest == t2[|name| + 1..][|pins|..] && ')' !in pins
    ensures PartLayout(text, name, pins, rest)
    ensures IsSuffix(rest, text) && |rest| + 2 <= |text|
  {
    var t4 := t2[|name| + 1..];
    assert t2 == name + ['('] + t4;
    assert t4 == pins + rest;
    assert text == text[..k] + ['\t'] + t2;
  }

  /** The part at the head of `text` would not panic. */
  predicate PartWired(text: string) {
    ScanPart(text).Ok? ==> Wired(ScanPart(text).value.1)
  }

  /** The wiring a part's pin text denotes: one binding per segment, in order. */
  predicate Wiring(pins: string, p: Part) {
    && |p.internal| == |Segments(pins)|
    && |p.external| == |Segments(pins)|
    && forall i :: 0 <= i < |Segments(pins)| ==> Binding(Segments(pins)[i], p.internal[i], p.external[i])
  }

  /** One part instantiation. */
  function ParsePart(text: string): (r: IResult<Part>)
    requires PartWired(text)
    ensures r.Ok? <==> ScanPart(text).Ok?
    ensures r.Ok? ==> |r.value.internal| == |r.value.external|
    ensures r.Ok? ==> r.rest == ScanPart(text).rest && r.value.name == ScanPart(text).value.0
    ensures r.Ok? ==> Wiring(ScanPart(text).value.1, r.value)
  {
    match ScanPart(text)
    case Error => Error
    case Ok(rest, (name, pins)) =>
      var (internal, external) := Wire(Segments(pins));
      Ok(rest, Part(name, internal, external))
  }

  /** Every part met by repeated parsing from `text` would not panic. */
  predicate AllWired(text: string)
    decreases |text|
  {
    match ScanPart(text)
    case Error => true
    case Ok(rest, (_, pins)) => Wired(pins) && AllWired(rest)
  }

  /** `ps` are the parts obtained by parsing one part after another from `text`, ending at `rest`. */
  predicate Chain(text: string, ps: seq<Part>, rest: string)
    decreases |ps|
  {
    if |ps| == 0 then text == rest
    else
      && PartWired(text)
      && ParsePart(text).Ok?
      && ParsePart(text).value == ps[0]
      && Chain(ParsePart(text).rest, ps[1..], rest)
  }

  /**
   Parts, one after another, until one fails to parse; the failure is not an
   error. A part always consumes its tab and `(`, so the loop always advances.
   */
  function ManyParts(text: string): (r: IResult<seq<Part>>)
    requires AllWired(text)
    ensures r.Ok?
    ensures IsSuffix(r.rest, text)
    ensures Chain(text, r.value, r.rest)
    ensures ScanPart(r.rest).Error?
    decreases |text|
  {
    match ParsePart(text)
    case Error => Ok(text, [])
    case Ok(rest, p) =>
      var more := ManyParts(rest);
      SuffixTransitive(more.rest, rest, text);
      assert ([p] + more.value)[1..] == more.value;
      Ok(more.rest, [p] + more.value)
  }

  /** Repeated part parsing from `text[7..]` would not panic, when the `PARTS:\n` header is present. */
  predicate PartsWired(text: string) {
    "PARTS:\n" <= text ==> AllWired(text[7..])
  }

  /** The `PARTS:\n` header followed by as many parts as parse. */
  function Parts(text: string): (r: IResult<seq<Part>>)
    requires PartsWired(text)
    ensures r.Ok? <==> "PARTS:\n" <= text
    ensures r.Ok? ==> IsSuffix(r.rest, text)
    ensures r.Ok? ==> Chain(text[7..], r.value, r.rest) && ScanPart(r.rest).Error?
  {
    match Tag("PARTS:\n", text)
    case Error => Error
    case Ok(t1, _) =>
      var ps := ManyParts(t1);
      SuffixTransitive(ps.rest, t1, text);
      ps
  }

  // ---------------------------------------------------------------------------
  // The chip
  // ---------------------------------------------------------------------------

  /** `CHIP `, then the name up to the next space; the space stays in the remaining text. */
  function ChipName(text: string): (r: IResult<string>)
    ensures r.Ok? <==> "CHIP " <= text && ' ' in text[5..]
    ensures r.Ok? ==> var name := r.value;
      && 5 + |name| < |text| && text[5..5 + |name|] == name && text[5 + |name|] == ' ' && ' ' !in name
    ensures r.Ok? ==> r.rest == text[5 + |r.value|..]
  {
    match Tag("CHIP ", text)
    case Error => Error
    case Ok(t1, _) =>
      TakeUntilChar(' ', t1);
      TakeUntil(" ", t1)
  }

  /**
   The input list after the first `IN `, the output list after the next
   `OUT `, and a scan to `PARTS:\n`, which stays in the remaining text.
   */
  function Interface(text: string): (r: IResult<(seq<string>, seq<string>)>)
    ensures r.Ok? ==> |r.value.0| >= 1 && |r.value.1| >= 1
    ensures r.Ok? ==> "PARTS:\n" <= r.rest && IsSuffix(r.rest, text)
  {
    match TakeUntil("IN ", text)
    case Error => Error
    case Ok(t3, _) =>
      match Inputs(t3)
      case Error => Error
      case Ok(t4, ins) =>
        match TakeUntil("OUT ", t4)
        case Error => Error
        case Ok(t5, _) =>
          match Outputs(t5)
          case Error => Error
          case Ok(t6, outs) =>
            match TakeUntil("PARTS:\n", t6)
            case Error => Error
            case Ok(t7, _) =>
              assert IsSuffix(t7, text) by {
                TakeUntilSuffix("IN ", text);
                TakeUntilSuffix("OUT ", t4);
                TakeUntilSuffix("PARTS:\n", t6);
                SuffixTransitive(t4, t3, text);
                SuffixTransitive(t6, t5, t4);
                SuffixTransitive(t6, t4, text);
                SuffixTransitive(t7, t6, text);
              }
              Ok(t7, (ins, outs))
  }

  /** Everything before the parts: the chip name, then its interface. */
  function Header(text: string): (r: IResult<(string, seq<string>, seq<string>)>)
    ensures r.Ok? ==> "CHIP " <= text
    ensures r.Ok? ==> var name := r.value.0;
      && 5 + |name| < |text| && text[5..5 + |name|] == name && text[5 + |name|] == ' ' && ' ' !in name
    ensures r.Ok? ==> |r.value.1| >= 1 && |r.value.2| >= 1
    ensures r.Ok? ==> "PARTS:\n" <= r.rest && IsSuffix(r.rest, text)
  {
    match ChipName(text)
    case Error => Error
    case Ok(t2, name) =>
      match Interface(t2)
      case Error => Error
      case Ok(t7, (ins, outs)) =>
        SuffixTransitive(t7, t2, text);
        Ok(t7, (name, ins, outs))
  }

  /** The parts section found by the header would not panic. */
  predicate HdlWired(text: string) {
    Header(text).Ok? ==> PartsWired(Header(text).rest)
  }

  /** A whole HDL document. */
  function ParseHdl(text: string): (r: IResult<Chip>)
    requires HdlWired(text)
    ensures r.Ok? <==> Header(text).Ok?
    ensures r.Ok? ==> "CHIP " <= text
    ensures r.Ok? ==> var name := r.value.name;
      && 5 + |name| < |text| && text[5..5 + |name|] == name && text[5 + |name|] == ' ' && ' ' !in name
    ensures r.Ok? ==> |r.value.inputs| >= 1 && |r.value.outputs| >= 1
    ensures r.Ok? ==> forall i :: 0 <= i < |r.value.parts| ==>
                        |r.value.parts[i].internal| == |r.value.parts[i].external|
    ensures r.Ok? ==> IsSuffix(r.rest, text)
    ensures r.Ok? ==> Header(text).value == (r.value.name, r.value.inputs, r.value.outputs)
    ensures r.Ok? ==> Chain(Header(text).rest[7..], r.value.parts, r.rest) && ScanPart(r.rest).Error?
  {
    match Header(text)
    case Error => Error
    case Ok(t1, (name, ins, outs)) =>
      match Parts(t1)
      case Error => Error
      case Ok(rest, ps) =>
        SuffixTransitive(rest, t1, text);
        ChainBalanced(t1[7..], ps, rest);
        Ok(rest, Chip(name, ins, outs, ps))
  }

  /** Every part of a chain pairs its internal and external pins one to one. */
  lemma {:induction false} ChainBalanced(text: string, ps: seq<Part>, rest: string)
    requires Chain(text, ps, rest)
    ensures forall i :: 0 <= i < |ps| ==> |ps[i].internal| == |ps[i].external|
    decreases |ps|
  {
    if |ps| > 0 {
      var tail := ps[1..];
      ChainBalanced(ParsePart(text).rest, tail, rest);
      forall i | 0 <= i < |ps| ensures |ps[i].internal| == |ps[i].external| {
        if i > 0 {
          assert ps[i] == tail[i - 1];
        }
      }
    }
  }
}
