/**
 A printer for chips in the layout the parser reads (the name after `CHIP `,
 the pin lists after `IN ` and `OUT `, and every part on its own line behind a
 tab), and the round trip: parsing the printed text gives back the chip.
 The printer is a device for stating the parser's correctness; the parsed
 system has no printer of its own.
 */
module RoundTrip {
  import opened Strings
  import opened Combinators
  import opened Hdl
  import opened HdlProperties

  /** `internal[i]=external[i]` for every position both lists have. */
  function Bindings(internal: seq<string>, external: seq<string>): (r: seq<string>)
    ensures |r| == if |internal| <= |external| then |internal| else |external|
    ensures forall i :: 0 <= i < |r| ==> r[i] == internal[i] + ['='] + external[i]
  {
    var n := if |internal| <= |external| then |internal| else |external|;
    seq(n, i requires 0 <= i < n => internal[i] + ['='] + external[i])
  }

  /** A pin of the chip's interface: nothing the pin list reader treats specially. */
  predicate InterfacePin(x: string) {
    ' ' !in x && ',' !in x && ';' !in x
  }

  /** A pin of a part: nothing the part reader treats specially. */
  predicate PartPin(x: string) {
    ' ' !in x && ',' !in x && '=' !in x && ')' !in x
  }

  /** A part the printer can write so that it reads back: a `(`-free name and at least one binding. */
  predicate PrintablePart(p: Part) {
    && '(' !in p.name
    && |p.internal| == |p.external| && |p.internal| >= 1
    && (forall i :: 0 <= i < |p.internal| ==> PartPin(p.internal[i]))
    && (forall i :: 0 <= i < |p.external| ==> PartPin(p.external[i]))
  }

  predicate Printable(c: Chip) {
    && ' ' !in c.name
    && |c.inputs| >= 1 && |c.outputs| >= 1
    && (forall i :: 0 <= i < |c.inputs| ==> InterfacePin(c.inputs[i]))
    && (forall i :: 0 <= i < |c.outputs| ==> InterfacePin(c.outputs[i]))
    && (forall i :: 0 <= i < |c.parts| ==> PrintablePart(c.parts[i]))
  }

  /** The pin text of a part: its bindings separated by `,`. */
  function PinText(p: Part): string
  {
    Join(Bindings(p.internal, p.external), ',')
  }

  /** One part line: tab, name, `(`, bindings, `);` and a newline. */
  function PartText(p: Part): string
  {
    "\t" + p.name + "(" + PinText(p) + ");\n"
  }

  function PartsText(ps: seq<Part>): string
  {
    if |ps| == 0 then [] else PartText(ps[0]) + PartsText(ps[1..])
  }

  function ChipText(c: Chip): string
  {
    "CHIP " + c.name + " {\n    IN " + Join(c.inputs, ',') + ";\n    OUT " + Join(c.outputs, ',')
    + ";\n\n    PARTS:\n" + PartsText(c.parts) + "}\n"
  }

  /** The `,`-separated pin text of a printable part splits back into its bindings. */
  lemma SegmentsOfPinText(p: Part)
    requires PrintablePart(p)
    ensures Segments(PinText(p)) == Bindings(p.internal, p.external)
    ensures ')' !in PinText(p)
  {
    var bs := Bindings(p.internal, p.external);
    forall i | 0 <= i < |bs| ensures ' ' !in bs[i] && ',' !in bs[i] && ')' !in bs[i] {
      assert bs[i] == p.internal[i] + ['='] + p.external[i];
    }
    JoinKeepsOut(bs, ',', ')');
    SegmentsOfJoin(bs);
  }

  /** Every binding reads back as the pins it was written from. */
  lemma WireOfBindings(internal: seq<string>, external: seq<string>)
    requires |internal| == |external|
    requires forall i :: 0 <= i < |internal| ==> '=' !in internal[i] && '=' !in external[i]
    ensures forall i :: 0 <= i < |internal| ==> '=' in Bindings(internal, external)[i]
    ensures Wire(Bindings(internal, external)) == (internal, external)
  {
    var bs := Bindings(internal, external);
    forall i | 0 <= i < |bs| ensures '=' in bs[i] {
      assert bs[i][|internal[i]|] == '=';
    }
    var r := Wire(bs);
    forall i | 0 <= i < |bs| ensures r.0[i] == internal[i] && r.1[i] == external[i] {
      assert Binding(bs[i], internal[i], external[i]) by {
        assert bs[i] == internal[i] + ['='] + external[i];
      }
      BindingUnique(bs[i], r.0[i], r.1[i], internal[i], external[i]);
    }
    assert r.0 == internal && r.1 == external;
  }

  /** A printed part line, regrouped as the part scanner reads it. */
  lemma PartTextLayout(pre: string, p: Part, tail: string)
    requires PrintablePart(p)
    ensures pre + PartText(p) + tail == pre + ['\t'] + p.name + ['('] + PinText(p) + (");\n" + tail)
  {
  }

  /** A printed part, behind any tab-free text, parses back to the part. */
  lemma ParsePartText(pre: string, p: Part, tail: string)
    requires '\t' !in pre && PrintablePart(p)
    ensures var text := pre + PartText(p) + tail;
      && PartWired(text)
      && ParsePart(text) == Ok(");\n" + tail, p)
  {
    var text := pre + PartText(p) + tail;
    PartTextLayout(pre, p, tail);
    SegmentsOfPinText(p);
    ScanPartOfLayout(pre, p.name, PinText(p), ");\n" + tail);
    forall i | 0 <= i < |p.internal| ensures '=' !in p.internal[i] && '=' !in p.external[i] {
      assert PartPin(p.internal[i]) && PartPin(p.external[i]);
    }
    WireOfBindings(p.internal, p.external);
  }

  /** The first printed part line, split off the rest. */
  lemma PartsTextCons(pre: string, ps: seq<Part>, tail: string)
    requires |ps| > 0
    ensures pre + (PartsText(ps) + tail) == pre + PartText(ps[0]) + (PartsText(ps[1..]) + tail)
  {
    assert PartsText(ps) == PartText(ps[0]) + PartsText(ps[1..]);
    Regroup(pre, PartText(ps[0]), PartsText(ps[1..]), tail);
  }

  /** Regrouping a concatenation; kept apart so the caller's context holds no sequence arithmetic. */
  lemma Regroup(a: string, b: string, c: string, d: string)
    ensures a + ((b + c) + d) == a + b + (c + d)
  {
  }

  /** Printed parts, behind tab-free text and before a tab-free tail, are read back one by one. */
  lemma {:induction false} PartsTextChain(pre: string, ps: seq<Part>, tail: string)
    requires '\t' !in pre && '\t' !in tail
    requires forall i :: 0 <= i < |ps| ==> PrintablePart(ps[i])
    ensures var text := pre + (PartsText(ps) + tail);
      && AllWired(text)
      && ManyParts(text) == Ok(if |ps| == 0 then pre + tail else ");\n" + tail, ps)
    decreases |ps|
  {
    if |ps| == 0 {
      var text := pre + (PartsText(ps) + tail);
      assert text == pre + tail;
      NoPartWithoutTab(text);
      ManyPartsMaximal(text, [], text);
    } else {
      PartsTextChain(");\n", ps[1..], tail);
      PartsTextStep(pre, ps, tail);
    }
  }

  /** One step of the chain: the first printed part, then the rest already read back. */
  lemma PartsTextStep(pre: string, ps: seq<Part>, tail: string)
    requires '\t' !in pre && |ps| > 0
    requires forall i :: 0 <= i < |ps| ==> PrintablePart(ps[i])
    requires var t1 := ");\n" + (PartsText(ps[1..]) + tail);
      AllWired(t1) && ManyParts(t1) == Ok(");\n" + tail, ps[1..])
    ensures var text := pre + (PartsText(ps) + tail);
      AllWired(text) && ManyParts(text) == Ok(");\n" + tail, ps)
  {
    var text := pre + (PartsText(ps) + tail);
    var after := PartsText(ps[1..]) + tail;
    PartsTextCons(pre, ps, tail);
    ParsePartText(pre, ps[0], after);
    ChainFromTail(text, ps, ");\n" + after, ");\n" + tail);
  }

  /** No part is found in text without a tab. */
  lemma NoPartWithoutTab(text: string)
    requires '\t' !in text
    ensures ScanPart(text).Error?
  {
    ScanPartSteps(text);
  }

  /** A part found first, followed by the maximal chain after it, is the maximal chain. */
  lemma ChainFromTail(text: string, ps: seq<Part>, t1: string, rest: string)
    requires |ps| > 0
    requires PartWired(text) && ParsePart(text) == Ok(t1, ps[0])
    requires AllWired(t1) && ManyParts(t1) == Ok(rest, ps[1..])
    ensures AllWired(text) && ManyParts(text) == Ok(rest, ps)
  {
    assert AllWired(text);
    assert Chain(text, ps, rest);
    ManyPartsMaximal(text, ps, rest);
  }

  /** The printed chip, regrouped as the header parsers read it. */
  lemma ChipTextLayout(c: Chip)
    ensures ChipText(c) ==
      "CHIP " + (c.name + (" {\n    " + ("IN " + Join(c.inputs, ',') + (";\n    " + ("OUT " + Join(c.outputs, ',')
      + (";\n\n    " + ("PARTS:\n" + (PartsText(c.parts) + "}\n"))))))))
  {
    HeaderLayout(c.name, Join(c.inputs, ','), Join(c.outputs, ','), PartsText(c.parts) + "}\n");
  }

  /** Regrouping the printed chip; kept apart from ChipTextLayout so the literals are unfolded in a small context. */
  lemma HeaderLayout(name: string, ins: string, outs: string, body: string)
    ensures "CHIP " + name + " {\n    IN " + ins + ";\n    OUT " + outs + ";\n\n    PARTS:\n" + body ==
      "CHIP " + (name + (" {\n    " + ("IN " + ins + (";\n    " + ("OUT " + outs + (";\n\n    " + ("PARTS:\n" + body)))))))
  {
  }

  /** The name after `CHIP ` is read up to the space that follows it. */
  lemma ChipNameOf(name: string, t: string)
    requires ' ' !in name && |t| > 0 && t[0] == ' '
    ensures ChipName("CHIP " + (name + t)) == Ok(t, name)
  {
    TagOf("CHIP ", name + t);
    TakeUntilAfter(" ", name, t);
  }

  /** The printed interface is read back as the chip's pin lists. */
  lemma InterfaceOf(ins: seq<string>, outs: seq<string>, body: string)
    requires |ins| >= 1 && |outs| >= 1
    requires forall i :: 0 <= i < |ins| ==> InterfacePin(ins[i])
    requires forall i :: 0 <= i < |outs| ==> InterfacePin(outs[i])
    ensures Interface(" {\n    " + ("IN " + Join(ins, ',') + (";\n    " + ("OUT " + Join(outs, ',')
      + (";\n\n    " + ("PARTS:\n" + body))))))
      == Ok("PARTS:\n" + body, (ins, outs))
  {
    var w := ";\n\n    " + ("PARTS:\n" + body);
    var y := ";\n    " + ("OUT " + Join(outs, ',') + w);
    var x := "IN " + Join(ins, ',') + y;
    var z := "OUT " + Join(outs, ',') + w;
    assert 'O' !in ";\n    ";
    InputsStep(" {\n    ", ins, y);
    OutputsStep(";\n    ", outs, w);
    SkipToParts(body);
    InterfaceSteps(" {\n    " + x, " {\n    ", x, ins, y, ";\n    ", z, outs, w, ";\n\n    ", "PARTS:\n" + body);
  }

  /** Text before the printed inputs is skipped, and the inputs are read back. */
  lemma InputsStep(pre: string, xs: seq<string>, tail: string)
    requires 'I' !in pre
    requires |xs| >= 1 && (forall i :: 0 <= i < |xs| ==> InterfacePin(xs[i]))
    requires |tail| > 0 && tail[0] == ';'
    ensures var t := "IN " + Join(xs, ',') + tail;
      TakeUntil("IN ", pre + t) == Ok(t, pre) && Inputs(t) == Ok(tail, xs)
  {
    var t := "IN " + Join(xs, ',') + tail;
    assert "IN " <= t;
    TakeUntilAfter("IN ", pre, t);
    PinListOfJoin("IN ", xs, tail);
  }

  /** Text before the printed outputs is skipped, and the outputs are read back. */
  lemma OutputsStep(pre: string, xs: seq<string>, tail: string)
    requires 'O' !in pre
    requires |xs| >= 1 && (forall i :: 0 <= i < |xs| ==> InterfacePin(xs[i]))
    requires |tail| > 0 && tail[0] == ';'
    ensures var t := "OUT " + Join(xs, ',') + tail;
      TakeUntil("OUT ", pre + t) == Ok(t, pre) && Outputs(t) == Ok(tail, xs)
  {
    var t := "OUT " + Join(xs, ',') + tail;
    assert "OUT " <= t;
    TakeUntilAfter("OUT ", pre, t);
    PinListOfJoin("OUT ", xs, tail);
  }

  lemma SkipToParts(body: string)
    ensures TakeUntil("PARTS:\n", ";\n\n    " + ("PARTS:\n" + body)) == Ok("PARTS:\n" + body, ";\n\n    ")
  {
    TakeUntilAfter("PARTS:\n", ";\n\n    ", "PARTS:\n" + body);
  }

  /** The header of a printed chip is read back as its name and pin lists. */
  lemma HeaderOfText(c: Chip)
    requires Printable(c)
    ensures Header(ChipText(c)) == Ok("PARTS:\n" + (PartsText(c.parts) + "}\n"), (c.name, c.inputs, c.outputs))
  {
    var body := PartsText(c.parts) + "}\n";
    var afterName := " {\n    " + ("IN " + Join(c.inputs, ',') + (";\n    " + ("OUT " + Join(c.outputs, ',')
      + (";\n\n    " + ("PARTS:\n" + body)))));
    ChipTextLayout(c);
    ChipNameOf(c.name, afterName);
    InterfaceOf(c.inputs, c.outputs, body);
  }

  /** The printed parts section is read back as the parts, up to the closing brace. */
  lemma PartsOfText(ps: seq<Part>)
    requires forall i :: 0 <= i < |ps| ==> PrintablePart(ps[i])
    ensures var t := "PARTS:\n" + (PartsText(ps) + "}\n");
      PartsWired(t) && Parts(t) == Ok(if |ps| == 0 then "}\n" else ");\n}\n", ps)
  {
    BodyChain(ps);
    PartsStep(PartsText(ps) + "}\n", if |ps| == 0 then "}\n" else ");\n}\n", ps);
  }

  /** The printed parts and the closing brace are read back as the parts. */
  lemma BodyChain(ps: seq<Part>)
    requires forall i :: 0 <= i < |ps| ==> PrintablePart(ps[i])
    ensures var body := PartsText(ps) + "}\n";
      AllWired(body) && ManyParts(body) == Ok(if |ps| == 0 then "}\n" else ");\n}\n", ps)
  {
    var body := PartsText(ps) + "}\n";
    var r1 := if |ps| == 0 then [] + "}\n" else ");\n" + "}\n";
    var r2 := if |ps| == 0 then "}\n" else ");\n}\n";
    ClosingText();
    EmptyPrefix(body);
    PartsTextChain([], ps, "}\n");
    SameChain([] + body, body, r1, r2, ps);
  }

  /** The empty prefix vanishes; kept apart so BodyChain's context holds no sequence arithmetic. */
  lemma EmptyPrefix(x: string)
    ensures [] + x == x
  {
  }

  /** Rewrites ManyParts across equal texts; kept apart so BodyChain does not unfold ManyParts itself. */
  lemma SameChain(a: string, b: string, r1: string, r2: string, ps: seq<Part>)
    requires a == b && r1 == r2
    requires AllWired(a) && ManyParts(a) == Ok(r1, ps)
    ensures AllWired(b) && ManyParts(b) == Ok(r2, ps)
  {
  }

  /** The two possible remainders of a printed chip, as literals; kept apart like EmptyPrefix. */
  lemma ClosingText()
    ensures [] + "}\n" == "}\n" && ");\n" + "}\n" == ");\n}\n"
  {
  }

  /**
   Parsing a printed chip gives back the chip; what remains is the end of the
   last part line (or nothing of the parts, when there are none) and the
   closing brace, which the parser does not read.
   */
  lemma ParseChipText(c: Chip)
    requires Printable(c)
    ensures HdlWired(ChipText(c))
    ensures ParseHdl(ChipText(c)) == Ok(if |c.parts| == 0 then "}\n" else ");\n}\n", c)
  {
    var t1 := "PARTS:\n" + (PartsText(c.parts) + "}\n");
    HeaderOfText(c);
    PartsOfText(c.parts);
    ParseHdlSteps(ChipText(c), t1, c.name, c.inputs, c.outputs,
                  if |c.parts| == 0 then "}\n" else ");\n}\n", c.parts);
  }
}
