/**
  What vms_source_control_define_str puts into the records, and what it makes of a
  description that it cannot use (src/core/source.c:37-53 and 95-179,
  src/core/signatures.c:6-47), in terms of the description alone.
 */
module SourceRecords {
  import opened Basics
  import opened SourceControl

  /** The operands and their sizes. */
  predicate Operand(c: char, size: nat) {
    || (c == 'c' && size == 1)
    || (c == 'h' && size == 2)
    || (c == 'i' && size == 4)
    || (c == '_' && size == 0)
    || (c in ['l', 'f', 'd', 'p', 't', 'S', 'L', 'M', '?'] && size == 8)
  }

  predicate IsOperand(c: char) {
    c in ['c', 'h', 'i', '_', 'l', 'f', 'd', 'p', 't', 'S', 'L', 'M', '?']
  }

  lemma OperandSizeIs(c: char, size: nat)
    ensures OperandSize(c) == Some(size) <==> Operand(c, size)
    ensures OperandSize(c).Some? <==> IsOperand(c)
  {
  }

  function Sum(sizes: seq<nat>): nat {
    if sizes == [] then 0 else sizes[0] + Sum(sizes[1..])
  }

  predicate SizesOf(sizes: seq<nat>, sig: string) {
    |sizes| == |sig| && forall i :: 0 <= i < |sig| ==> Operand(sig[i], sizes[i])
  }

  predicate OperandsOnlyIn(sig: string) {
    forall i :: 0 <= i < |sig| ==> IsOperand(sig[i])
  }

  /** The size of a signature is the sum of its operands', if it has no other characters. */
  lemma {:induction false} SizeIsSum(sig: string, c: nat) returns (sizes: seq<nat>)
    requires c <= |sig|
    ensures SizeFrom(sig, c).Some? <==> OperandsOnlyIn(sig[c..])
    ensures SizeFrom(sig, c).Some? ==> SizesOf(sizes, sig[c..]) && SizeFrom(sig, c).value == Sum(sizes)
    decreases |sig| - c
  {
    sizes := [];
    if c < |sig| {
      var rest := SizeIsSum(sig, c + 1);
      var size := if OperandSize(sig[c]).Some? then OperandSize(sig[c]).value else 0;
      OperandSizeIs(sig[c], size);
      sizes := [size] + rest;
      assert sig[c..] == [sig[c]] + sig[c + 1..];
      assert sizes[1..] == rest;
    }
  }

  lemma ValidIffOperands(sig: string)
    ensures ValidSignature(sig) <==> OperandsOnlyIn(sig)
  {
    var sizes := SizeIsSum(sig, 0);
    assert sig[0..] == sig;
  }

  /** A field that fits the local buffers and has operands only. */
  predicate Usable(f: Field) {
    && |f.name| < 63 && |f.sig| < 63
    && OperandsOnlyIn(f.sig)
  }

  lemma GoodIffUsable(f: Field)
    ensures GoodField(f) <==> Usable(f) && ':' !in f.name
  {
    ValidIffOperands(f.sig);
  }

  /** What a record says about its field. */
  predicate Describes(r: Record, f: Field, sizes: seq<nat>) {
    && r.name == f.name
    && r.kind == 0
    && r.signature == (if |f.sig| <= 31 then f.sig else f.sig[..31])
    && SizesOf(sizes, f.sig) && r.size == 16 + Sum(sizes)
  }

  lemma RecordDescribes(f: Field) returns (sizes: seq<nat>)
    requires GoodField(f)
    ensures Describes(InitRecord(f.name, f.sig), f, sizes)
  {
    sizes := SizeIsSum(f.sig, 0);
    assert f.sig[0..] == f.sig;
  }

  /** Every field printed comes back as one record with its name, its signature cut to 31
      characters, no kind, and a size of 16 bytes plus its operands'. */
  lemma PrintedIsDescribed(fields: seq<Field>, trailing: bool, i: nat) returns (sizes: seq<nat>)
    requires i < |fields| && CommasFit(fields, trailing)
    requires forall j :: 0 <= j < |fields| ==> Usable(fields[j]) && ':' !in fields[j].name
    ensures var outcome := Define(Print(fields, trailing));
            && outcome.Parsed? && outcome.total == |outcome.records| == |fields|
            && Describes(outcome.records[i], fields[i], sizes)
  {
    forall j | 0 <= j < |fields|
      ensures GoodField(fields[j])
    {
      GoodIffUsable(fields[j]);
    }
    DefineInvertsPrint(fields, trailing);
    RecordsLength(fields);
    sizes := RecordDescribes(fields[i]);
  }

  // ---------------------------------------------------------------------
  // Descriptions that cannot be used
  // ---------------------------------------------------------------------

  function Complaint(f: Field): Outcome {
    if |f.name| >= 63 || |f.sig| >= 63 then FieldTooLong else UnknownOperand
  }

  predicate FirstBad(fields: seq<Field>, k: nat) {
    k < |fields| && !Usable(fields[k]) && forall j :: 0 <= j < k ==> Usable(fields[j])
  }

  lemma {:induction false} ParseStopsAtBad(
    fields: seq<Field>, trailing: bool, k: nat, rs: seq<Record>, evs: nat)
    requires SeparableFields(fields) && FirstBad(fields, k)
    requires evs == |rs| + |fields|
    ensures ParseText(TextOf(fields, trailing), rs, evs) == Complaint(fields[k])
    decreases |fields|
  {
    var f := fields[0];
    ValidIffOperands(f.sig);
    if k > 0 {
      ParseStopsAtBad(fields[1..], trailing, k - 1, rs + [InitRecord(f.name, f.sig)], evs);
    }
  }

  /** The first field that does not fit or has an unknown operand decides the outcome,
      whatever comes after it. */
  lemma FirstBadFieldDecides(fields: seq<Field>, trailing: bool, k: nat)
    requires SeparableFields(fields) && CommasFit(fields, trailing) && FirstBad(fields, k)
    ensures Define(Print(fields, trailing)) == Complaint(fields[k])
  {
    CountPrint(fields, trailing);
    CutInvertsPrint(fields, trailing);
    ParseStopsAtBad(fields, trailing, k, [], |fields|);
  }

  /** With too many commas for the number of fields, nothing is tried. */
  lemma WrongCountsDecide(fields: seq<Field>, trailing: bool)
    requires SeparableFields(fields) && !CommasFit(fields, trailing)
    ensures Define(Print(fields, trailing)) == WrongFormat
  {
    CountPrint(fields, trailing);
  }

  /** Nor without a field. */
  lemma NoFieldIsWrong(str: string)
    requires ':' !in str
    ensures Define(str) == WrongFormat
  {
    CountAbsent(str, ':');
  }
}
