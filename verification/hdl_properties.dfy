/**
 Properties of the HDL parser that relate several calls: the converse of each
 parser's contract (text laid out the way a parser expects is parsed to exactly
 the values laid out), and the characterisation of when a part is found.
 */
module HdlProperties {
  import opened Strings
  import opened Combinators
  import opened Hdl

  /** A pin list written out with `,` between the pins and a `;` after them is read back exactly. */
  lemma PinListOfJoin(marker: string, xs: seq<string>, tail: string)
    requires |xs| >= 1
    requires forall i :: 0 <= i < |xs| ==> ' ' !in xs[i] && ',' !in xs[i] && ';' !in xs[i]
    requires |tail| > 0 && tail[0] == ';'
    ensures PinList(marker, marker + Join(xs, ',') + tail) == Ok(tail, xs)
  {
    var pins := Join(xs, ',');
    Assoc(marker, pins, tail);
    TagOf(marker, pins + tail);
    JoinKeepsOut(xs, ',', ';');
    TakeUntilAfter(";", pins, tail);
    SegmentsOfJoin(xs);
    PinListSteps(marker, marker + pins + tail, pins + tail, tail, pins);
  }

  /** Pins without spaces or commas, joined with `,`, are segmented back into themselves. */
  lemma SegmentsOfJoin(xs: seq<string>)
    requires |xs| >= 1
    requires forall i :: 0 <= i < |xs| ==> ' ' !in xs[i] && ',' !in xs[i]
    ensures Segments(Join(xs, ',')) == xs
  {
    JoinKeepsOut(xs, ',', ' ');
    RemoveSpacesFixed(Join(xs, ','));
    SplitJoin(xs, ',');
  }

  /** PinList is the marker, then the text up to `;`, segmented. */
  lemma PinListSteps(marker: string, text: string, t1: string, t2: string, pins: string)
    requires Tag(marker, text) == Ok(t1, marker) && TakeUntil(";", t1) == Ok(t2, pins)
    ensures PinList(marker, text) == Ok(t2, Segments(pins))
  {
  }

  /** Text with a tab after a tab-free prefix is skipped to just past that tab. */
  lemma SkipPastTabOf(pre: string, t2: string)
    requires '\t' !in pre
    ensures SkipPastTab(pre + ['\t'] + t2) == Ok(t2, pre)
  {
    var t1 := "\t" + t2;
    assert pre + ['\t'] + t2 == pre + t1;
    TakeUntilAfter("\t", pre, t1);
    TagOf("\t", t2);
  }

  /** A name, `(`, and a pin text closed by `)` are read back exactly. */
  lemma NameAndPinsOf(name: string, pins: string, rest: string)
    requires '(' !in name && ')' !in pins
    requires |rest| > 0 && rest[0] == ')'
    ensures NameAndPins(name + ['('] + pins + rest) == Ok(rest, (name, pins))
  {
    var t3 := "(" + pins + rest;
    assert name + ['('] + pins + rest == name + t3;
    TakeUntilAfter("(", name, t3);
    assert t3 == "(" + (pins + rest);
    TagOf("(", pins + rest);
    TakeUntilAfter(")", pins, rest);
  }

  /** Text laid out as a part expects is scanned into exactly that name, pin text and rest. */
  lemma ScanPartOfLayout(pre: string, name: string, pins: string, rest: string)
    requires '\t' !in pre && '(' !in name && ')' !in pins
    requires |rest| > 0 && rest[0] == ')'
    ensures ScanPart(pre + ['\t'] + name + ['('] + pins + rest) == Ok(rest, (name, pins))
  {
    var t2 := name + ['('] + pins + rest;
    assert pre + ['\t'] + name + ['('] + pins + rest == pre + ['\t'] + t2;
    SkipPastTabOf(pre, t2);
    NameAndPinsOf(name, pins, rest);
  }

  /**
   Where the interface is read: the inputs at the first `IN ` of the text, the
   outputs at the first `OUT ` after the inputs' `;`, and the remaining text
   from the first `PARTS:\n` after the outputs' `;`. A document with two `IN `
   markers binds to the first one.
   */
  lemma InterfaceReads(text: string) returns (i: nat, j: nat, k: nat)
    requires Interface(text).Ok?
    ensures FirstOccurrence("IN ", text, i) && Inputs(text[i..]).Ok?
    ensures Inputs(text[i..]).value == Interface(text).value.0
    ensures FirstOccurrence("OUT ", Inputs(text[i..]).rest, j)
    ensures Outputs(Inputs(text[i..]).rest[j..]).Ok?
    ensures Outputs(Inputs(text[i..]).rest[j..]).value == Interface(text).value.1
    ensures FirstOccurrence("PARTS:\n", Outputs(Inputs(text[i..]).rest[j..]).rest, k)
    ensures Interface(text).rest == Outputs(Inputs(text[i..]).rest[j..]).rest[k..]
  {
    InterfaceStages(text);
    var a := TakeUntil("IN ", text);
    TakeUntilAt("IN ", text);
    i := |a.value|;
    var t4 := Inputs(a.rest).rest;
    var c := TakeUntil("OUT ", t4);
    TakeUntilAt("OUT ", t4);
    j := |c.value|;
    var t6 := Outputs(c.rest).rest;
    TakeUntilAt("PARTS:\n", t6);
    k := |TakeUntil("PARTS:\n", t6).value|;
  }

  /** The stages of a read interface, each succeeding on what the one before leaves. */
  lemma InterfaceStages(text: string)
    requires Interface(text).Ok?
    ensures TakeUntil("IN ", text).Ok? && Inputs(TakeUntil("IN ", text).rest).Ok?
    ensures Inputs(TakeUntil("IN ", text).rest).value == Interface(text).value.0
    ensures var t4 := Inputs(TakeUntil("IN ", text).rest).rest;
      && TakeUntil("OUT ", t4).Ok? && Outputs(TakeUntil("OUT ", t4).rest).Ok?
      && Outputs(TakeUntil("OUT ", t4).rest).value == Interface(text).value.1
      && TakeUntil("PARTS:\n", Outputs(TakeUntil("OUT ", t4).rest).rest).Ok?
      && TakeUntil("PARTS:\n", Outputs(TakeUntil("OUT ", t4).rest).rest).rest == Interface(text).rest
  {
  }

  /**
   The converse of InterfaceReads: when the pin lists read at those first
   occurrences succeed and a `PARTS:\n` follows, the interface is read from
   there. Together the two say exactly when the interface is read.
   */
  lemma InterfaceOfFirsts(text: string, i: nat, j: nat, k: nat)
    requires FirstOccurrence("IN ", text, i) && Inputs(text[i..]).Ok?
    requires FirstOccurrence("OUT ", Inputs(text[i..]).rest, j)
    requires Outputs(Inputs(text[i..]).rest[j..]).Ok?
    requires FirstOccurrence("PARTS:\n", Outputs(Inputs(text[i..]).rest[j..]).rest, k)
    ensures Interface(text) == Ok(Outputs(Inputs(text[i..]).rest[j..]).rest[k..],
                                  (Inputs(text[i..]).value, Outputs(Inputs(text[i..]).rest[j..]).value))
  {
    var t4 := Inputs(text[i..]).rest;
    var t6 := Outputs(t4[j..]).rest;
    TakeUntilOfFirst("IN ", text, i);
    TakeUntilOfFirst("OUT ", t4, j);
    TakeUntilOfFirst("PARTS:\n", t6, k);
    InterfaceSteps(text, text[..i], text[i..], Inputs(text[i..]).value, t4, t4[..j], t4[j..],
                   Outputs(t4[j..]).value, t6, t6[..k], t6[k..]);
  }

  /** The header is the chip name, then the interface read from what follows it. */
  lemma HeaderStages(text: string)
    requires Header(text).Ok?
    ensures ChipName(text).Ok? && Interface(ChipName(text).rest).Ok?
    ensures Header(text).value.0 == ChipName(text).value
    ensures (Header(text).value.1, Header(text).value.2) == Interface(ChipName(text).rest).value
    ensures Header(text).rest == Interface(ChipName(text).rest).rest
  {
  }

  /**
   Where a document is read: the name after `CHIP `; in what follows it, the
   inputs at the first `IN `, the outputs at the first `OUT ` after the inputs'
   `;`, and the parts from just past the first `PARTS:\n` after the outputs' `;`.
   */
  lemma ParseHdlReads(text: string) returns (i: nat, j: nat, k: nat)
    requires HdlWired(text) && ParseHdl(text).Ok?
    ensures ChipName(text).Ok? && ParseHdl(text).value.name == ChipName(text).value
    ensures var t2 := ChipName(text).rest;
      && FirstOccurrence("IN ", t2, i) && Inputs(t2[i..]).Ok?
      && Inputs(t2[i..]).value == ParseHdl(text).value.inputs
      && FirstOccurrence("OUT ", Inputs(t2[i..]).rest, j)
      && Outputs(Inputs(t2[i..]).rest[j..]).Ok?
      && Outputs(Inputs(t2[i..]).rest[j..]).value == ParseHdl(text).value.outputs
      && FirstOccurrence("PARTS:\n", Outputs(Inputs(t2[i..]).rest[j..]).rest, k)
      && Chain(Outputs(Inputs(t2[i..]).rest[j..]).rest[k + 7..], ParseHdl(text).value.parts, ParseHdl(text).rest)
  {
    HeaderStages(text);
    var t2 := ChipName(text).rest;
    i, j, k := InterfaceReads(t2);
    var t6 := Outputs(Inputs(t2[i..]).rest[j..]).rest;
    SkipMarker(t6, k);
  }

  /** Past the first seven characters of the text from `k` is the text from `k + 7`. */
  lemma SkipMarker(t: string, k: nat)
    requires OccursAt("PARTS:\n", t, k)
    ensures t[k..][7..] == t[k + 7..] && t[k..] == "PARTS:\n" + t[k + 7..]
  {
    assert t[k..] == t[k..k + 7] + t[k + 7..];
  }

  /**
   The converse of ParseHdlReads: a document whose name is read and whose
   interface stages succeed at those first occurrences is read as the chip of
   that name, those pin lists and the maximal chain of parts after `PARTS:\n`.
   */
  lemma ParseHdlOfFirsts(text: string, i: nat, j: nat, k: nat)
    requires ChipName(text).Ok?
    requires FirstOccurrence("IN ", ChipName(text).rest, i) && Inputs(ChipName(text).rest[i..]).Ok?
    requires FirstOccurrence("OUT ", Inputs(ChipName(text).rest[i..]).rest, j)
    requires Outputs(Inputs(ChipName(text).rest[i..]).rest[j..]).Ok?
    requires FirstOccurrence("PARTS:\n", Outputs(Inputs(ChipName(text).rest[i..]).rest[j..]).rest, k)
    requires AllWired(Outputs(Inputs(ChipName(text).rest[i..]).rest[j..]).rest[k + 7..])
    ensures HdlWired(text)
    ensures var t2 := ChipName(text).rest;
      var t4 := Inputs(t2[i..]).rest;
      var body := Outputs(t4[j..]).rest[k + 7..];
      ParseHdl(text) == Ok(ManyParts(body).rest,
                           Chip(ChipName(text).value, Inputs(t2[i..]).value, Outputs(t4[j..]).value, ManyParts(body).value))
  {
    var t2 := ChipName(text).rest;
    var t4 := Inputs(t2[i..]).rest;
    var t6 := Outputs(t4[j..]).rest;
    var body := t6[k + 7..];
    var ins, outs := Inputs(t2[i..]).value, Outputs(t4[j..]).value;
    InterfaceOfFirsts(t2, i, j, k);
    SkipMarker(t6, k);
    HeaderOfStages(text, t6[k..], ins, outs);
    DocumentOfHeader(text, body, ChipName(text).value, ins, outs);
  }

  /** The chip name, then the interface read from what follows it, is the header. */
  lemma HeaderOfStages(text: string, t7: string, ins: seq<string>, outs: seq<string>)
    requires ChipName(text).Ok? && Interface(ChipName(text).rest) == Ok(t7, (ins, outs))
    ensures Header(text) == Ok(t7, (ChipName(text).value, ins, outs))
  {
  }

  /** A header ending at `PARTS:\n` is followed by the maximal chain of parts after it. */
  lemma DocumentOfHeader(text: string, body: string, name: string, ins: seq<string>, outs: seq<string>)
    requires Header(text) == Ok("PARTS:\n" + body, (name, ins, outs)) && AllWired(body)
    ensures HdlWired(text)
    ensures ParseHdl(text) == Ok(ManyParts(body).rest, Chip(name, ins, outs, ManyParts(body).value))
  {
    var m := ManyParts(body);
    PartsStep(body, m.rest, m.value);
    ParseHdlSteps(text, "PARTS:\n" + body, name, ins, outs, m.rest, m.value);
  }

  /** A tab, later a `(`, and later still a `)`. */
  predicate HasPartShape(text: string) {
    exists i, j, k :: 0 <= i < j < k < |text| && text[i] == '\t' && text[j] == '(' && text[k] == ')'
  }

  /** A part is found exactly when the text has the part shape; otherwise `part` fails. */
  lemma ScanPartSucceeds(text: string)
    ensures ScanPart(text).Ok? <==> HasPartShape(text)
  {
    if ScanPart(text).Ok? {
      ScanPartShape(text);
    }
    if HasPartShape(text) {
      var i, j, k :| 0 <= i < j < k < |text| && text[i] == '\t' && text[j] == '(' && text[k] == ')';
      ShapeScans(text, i, j, k);
    }
  }

  lemma ScanPartShape(text: string)
    requires ScanPart(text).Ok?
    ensures HasPartShape(text)
  {
    var r := ScanPart(text);
    var (name, pins) := r.value;
    var k := |text| - |r.rest| - |pins| - |name| - 2;
    var pre := text[..k];
    assert text == pre + ['\t'] + name + ['('] + pins + r.rest;
    assert text[k] == '\t';
    assert text[k + 1 + |name|] == '(';
    assert text[|text| - |r.rest|] == r.rest[0];
  }

  lemma ShapeScans(text: string, i: nat, j: nat, k: nat)
    requires i < j < k < |text| && text[i] == '\t' && text[j] == '(' && text[k] == ')'
    ensures ScanPart(text).Ok?
  {
    var a := SkipFound(text, i);
    AfterTab(text, a, j, k);
    ScanPartOfSteps(text);
  }

  /** After a tab at `a`, a later `(` and a `)` after that are found. */
  lemma AfterTab(text: string, a: nat, j: nat, k: nat)
    requires a < j < k < |text| && text[j] == '(' && text[k] == ')'
    ensures NameAndPins(text[a + 1..]).Ok?
  {
    var t := text[a + 1..];
    NameAndPinsFound(t, j - a - 1, k - a - 1);
  }

  /** A part is found when both scanning halves succeed. */
  lemma ScanPartOfSteps(text: string)
    requires SkipPastTab(text).Ok? && NameAndPins(SkipPastTab(text).rest).Ok?
    ensures ScanPart(text).Ok?
  {
    ScanPartSteps(text);
  }

  /** A tab at `i` is found, at `i` or before; the scan resumes just past it. */
  lemma SkipFound(text: string, i: nat) returns (a: nat)
    requires i < |text| && text[i] == '\t'
    ensures a <= i && SkipPastTab(text).Ok? && SkipPastTab(text).rest == text[a + 1..]
  {
    assert text[i] in text;
    a := |text| - |SkipPastTab(text).rest| - 1;
    forall idx | 0 <= idx < a ensures text[idx] != '\t' {
      assert text[..a][idx] == text[idx];
    }
  }

  lemma NameAndPinsFound(t: string, j: nat, k: nat)
    requires j < k < |t| && t[j] == '(' && t[k] == ')'
    ensures NameAndPins(t).Ok?
  {
    var b := FirstIndex('(', t, j);
    var u := t[b + 1..];
    assert u[k - b - 1] == ')';
    var c := FirstIndex(')', u, k - b - 1);
    assert u == u[..c] + u[c..];
    assert t == t[..b] + ['('] + u[..c] + u[c..];
    NameAndPinsOf(t[..b], u[..c], u[c..]);
  }

  /** The first position of `c` in `s`, given that `c` is at position `i`. */
  lemma FirstIndex(c: char, s: string, i: nat) returns (a: nat)
    requires i < |s| && s[i] == c
    ensures a <= i && s[a] == c && c !in s[..a]
  {
    OccursAtChar(c, s, i);
    var f := Find([c], s);
    a := f.value;
    OccursAtChar(c, s, a);
    forall j | 0 <= j < a ensures s[..a][j] != c {
      OccursAtChar(c, s, j);
    }
  }

  /** Repeated part parsing returns the one maximal chain: the parts up to the first text where no part is found. */
  lemma ManyPartsMaximal(text: string, ps: seq<Part>, rest: string)
    requires AllWired(text)
    requires Chain(text, ps, rest) && ScanPart(rest).Error?
    ensures ManyParts(text) == Ok(rest, ps)
  {
    var m := ManyParts(text);
    ChainUnique(text, ps, rest, m.value, m.rest);
  }

  /** A chain that ends where no part is found is determined by where it starts. */
  lemma {:induction false} ChainUnique(text: string, ps: seq<Part>, r1: string, qs: seq<Part>, r2: string)
    requires Chain(text, ps, r1) && ScanPart(r1).Error?
    requires Chain(text, qs, r2) && ScanPart(r2).Error?
    ensures ps == qs && r1 == r2
    decreases |ps|
  {
    if |ps| == 0 || |qs| == 0 {
      assert ScanPart(text).Error?;
      assert |ps| == 0 && |qs| == 0;
    } else {
      var t1 := ParsePart(text).rest;
      ChainUnique(t1, ps[1..], r1, qs[1..], r2);
      HeadTail(ps, qs);
    }
  }

  /** Interface is its five steps in order. */
  lemma InterfaceSteps(text: string, p1: string, t3: string, ins: seq<string>, t4: string, p2: string,
                       t5: string, outs: seq<string>, t6: string, p3: string, t7: string)
    requires TakeUntil("IN ", text) == Ok(t3, p1) && Inputs(t3) == Ok(t4, ins)
    requires TakeUntil("OUT ", t4) == Ok(t5, p2) && Outputs(t5) == Ok(t6, outs)
    requires TakeUntil("PARTS:\n", t6) == Ok(t7, p3)
    ensures Interface(text) == Ok(t7, (ins, outs))
  {
  }

  /** Parts is its header followed by the parts chain. */
  lemma PartsStep(body: string, rest: string, ps: seq<Part>)
    requires AllWired(body) && ManyParts(body) == Ok(rest, ps)
    ensures PartsWired("PARTS:\n" + body) && Parts("PARTS:\n" + body) == Ok(rest, ps)
  {
    TagOf("PARTS:\n", body);
  }

  /** ParseHdl is the header followed by the parts section. */
  lemma ParseHdlSteps(text: string, t1: string, name: string, ins: seq<string>, outs: seq<string>,
                      rest: string, ps: seq<Part>)
    requires Header(text) == Ok(t1, (name, ins, outs))
    requires PartsWired(t1) && Parts(t1) == Ok(rest, ps)
    ensures HdlWired(text) && ParseHdl(text) == Ok(rest, Chip(name, ins, outs, ps))
  {
  }
}
