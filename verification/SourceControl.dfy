/**
  The textual description of a source's events, "name:signature,..."
  (src/core/source.c:10-53 and 95-179, src/core/signatures.c:6-47).
 */
module SourceControl {
  import opened Basics

  /** struct vms_event_record; kind 0 means not registered yet. */
  datatype Record = Record(name: string, kind: nat, size: nat, signature: string)

  /** What becomes of a description. `total` is the number of records the returned
      control block has room for, `records` those that were filled. The code does not
      survive an unknown signature character (it aborts) or a field that does not fit
      its local buffer (it writes past the end). */
  datatype Outcome =
    | Parsed(records: seq<Record>, total: nat)
    | WrongFormat
    | UnknownOperand
    | FieldTooLong

  const LOCAL_BUFFER: nat := 63         // char name[63] and sig[63], with their NUL
  const MAX_SIGNATURE: nat := 31
  const EVENT_HEADER: nat := 16         // sizeof(vms_event)

  /** signature_op_get_size */
  function OperandSize(c: char): Option<nat> {
    if c == 'c' then Some(1)
    else if c == 'h' then Some(2)
    else if c == 'i' then Some(4)
    else if c == '_' then Some(0)
    else if c == 'l' || c == 'f' || c == 'd' || c == 'p' || c == 't' then Some(8)
    else if c == 'S' || c == 'L' || c == 'M' || c == '?' then Some(8)
    else None
  }

  function AddSize(k: nat, rest: Option<nat>): Option<nat> {
    if rest.None? then None else Some(k + rest.value)
  }

  /** signature_get_size from a position on, which gives up at an unknown operand. */
  function SizeFrom(sig: string, c: nat): Option<nat>
    decreases |sig| - c
  {
    if c >= |sig| then Some(0)
    else if OperandSize(sig[c]).None? then None
    else AddSize(OperandSize(sig[c]).value, SizeFrom(sig, c + 1))
  }

  predicate ValidSignature(sig: string) {
    SizeFrom(sig, 0).Some?
  }

  /** init_record; the signature field takes at most 31 characters. */
  function InitRecord(name: string, sig: string): Record
    requires ValidSignature(sig)
  {
    Record(name, 0, SizeFrom(sig, 0).value + EVENT_HEADER, if |sig| <= MAX_SIGNATURE then sig else sig[..MAX_SIGNATURE])
  }

  function Count(s: string, c: char): nat {
    if s == [] then 0 else (if s[0] == c then 1 else 0) + Count(s[1..], c)
  }

  /** strchr: the first position of c, or the string's length when there is none. */
  function Find(s: string, c: char): (at: nat)
    ensures at <= |s|
  {
    if s == [] || s[0] == c then 0 else 1 + Find(s[1..], c)
  }

  // ---------------------------------------------------------------------
  // The parser
  // ---------------------------------------------------------------------

  predicate GoodCounts(evs: nat, commas: nat) {
    0 < evs && (evs == commas || evs == commas + 1)
  }

  /** A text cut into fields: at the first colon, then at the first comma after it. A
      last field ends the string, with or without a comma. */
  datatype Text =
    | NoField
    | LastField(name: string, sig: string, comma: bool)
    | FieldAnd(name: string, sig: string, rest: Text)

  function Cut(s: string): Text
    decreases |s|, 0
  {
    var n := Find(s, ':');
    if n == |s| then NoField else CutSignature(s[..n], s[n + 1..])
  }

  function CutSignature(name: string, s: string): (t: Text)
    ensures !t.NoField? && t.name == name
    decreases |s|, 1
  {
    var m := Find(s, ',');
    if m + 1 >= |s| then LastField(name, s[..m], m < |s|) else FieldAnd(name, s[..m], Cut(s[m + 1..]))
  }

  /** What keeps a field from becoming a record. */
  function FieldError(name: string, sig: string): (e: Option<Outcome>)
    ensures e.None? ==> ValidSignature(sig)
  {
    if |name| >= LOCAL_BUFFER || |sig| >= LOCAL_BUFFER then Some(FieldTooLong)
    else if !ValidSignature(sig) then Some(UnknownOperand)
    else None
  }

  /** The loop, with the records `rs` filled so far. */
  function ParseText(t: Text, rs: seq<Record>, evs: nat): Outcome {
    match t
    case NoField => WrongFormat
    case LastField(name, sig, comma) =>
      if !comma && |rs| + 1 != evs then WrongFormat
      else if |rs| >= evs then Parsed(rs, evs)
      else if FieldError(name, sig).Some? then FieldError(name, sig).value
      else Parsed(rs + [InitRecord(name, sig)], evs)
    case FieldAnd(name, sig, rest) =>
      if |rs| >= evs then Parsed(rs, evs)
      else if FieldError(name, sig).Some? then FieldError(name, sig).value
      else ParseText(rest, rs + [InitRecord(name, sig)], evs)
  }

  function Define(str: string): Outcome {
    var evs := Count(str, ':');
    if GoodCounts(evs, Count(str, ',')) then ParseText(Cut(str), [], evs) else WrongFormat
  }

  method FindFrom(str: string, from: nat, c: char) returns (at: nat)
    requires from <= |str|
    ensures at == from + Find(str[from..], c)
  {
    at := from;
    while at < |str| && str[at] != c
      invariant from <= at <= |str|
      invariant from + Find(str[from..], c) == at + Find(str[at..], c)
    {
      assert str[at..][1..] == str[at + 1..];
      at := at + 1;
    }
  }

  method CountEvents(str: string) returns (evs: nat, commas: nat)
    ensures evs == Count(str, ':') && commas == Count(str, ',')
  {
    evs, commas := 0, 0;
    var s := 0;
    assert str[0..] == str;
    while s < |str|
      invariant s <= |str|
      invariant evs + Count(str[s..], ':') == Count(str, ':')
      invariant commas + Count(str[s..], ',') == Count(str, ',')
    {
      assert str[s..][1..] == str[s + 1..];
      if str[s] == ':' {
        evs := evs + 1;
      }
      if str[s] == ',' {
        commas := commas + 1;
      }
      s := s + 1;
    }
  }

  /** signature_get_size */
  method SignatureSize(sig: string) returns (size: Option<nat>)
    ensures size == SizeFrom(sig, 0)
  {
    var n, c := 0, 0;
    while c < |sig|
      invariant c <= |sig|
      invariant SizeFrom(sig, 0) == AddSize(n, SizeFrom(sig, c))
    {
      var k := OperandSize(sig[c]);
      if k.None? {
        return None;
      }
      n, c := n + k.value, c + 1;
    }
    size := Some(n);
  }

  method CheckField(name: string, sig: string) returns (error: Option<Outcome>)
    ensures error == FieldError(name, sig)
  {
    if |name| >= LOCAL_BUFFER || |sig| >= LOCAL_BUFFER {
      return Some(FieldTooLong);
    }
    var size := SignatureSize(sig);
    return if size.None? then Some(UnknownOperand) else None;
  }

  lemma Slices(s: string, from: nat, at: nat)
    requires from <= at <= |s|
    ensures s[from..][..at - from] == s[from..at]
    ensures at < |s| ==> s[from..][at - from + 1..] == s[at + 1..]
  {
  }

  method LocateName(str: string, nStart: nat) returns (nEnd: nat)
    requires nStart <= |str|
    ensures nStart <= nEnd <= |str|
    ensures Cut(str[nStart..]) ==
            if nEnd == |str| then NoField else CutSignature(str[nStart..nEnd], str[nEnd + 1..])
  {
    nEnd := FindFrom(str, nStart, ':');
    Slices(str, nStart, nEnd);
  }

  method LocateSignature(str: string, sStart: nat, ghost name: string) returns (sEnd: nat)
    requires sStart <= |str|
    ensures sStart <= sEnd <= |str|
    ensures CutSignature(name, str[sStart..]) ==
            if sEnd + 1 >= |str| then LastField(name, str[sStart..sEnd], sEnd < |str|)
            else FieldAnd(name, str[sStart..sEnd], Cut(str[sEnd + 1..]))
  {
    sEnd := FindFrom(str, sStart, ',');
    Slices(str, sStart, sEnd);
  }

  /** The two searches of a round. */
  method LocateField(str: string, nStart: nat) returns (nEnd: nat, sEnd: nat, ghost text: Text)
    requires nStart <= |str|
    ensures nStart <= nEnd <= sEnd <= |str|
    ensures text == Cut(str[nStart..])
    ensures nEnd == |str| ==> text == NoField
    ensures nEnd < |str| ==>
              && nEnd < sEnd
              && !text.NoField? && text.name == str[nStart..nEnd] && text.sig == str[nEnd + 1..sEnd]
              && if sEnd + 1 >= |str| then text.LastField? && text.comma == (sEnd < |str|)
                 else text.FieldAnd? && text.rest == Cut(str[sEnd + 1..])
  {
    text := Cut(str[nStart..]);
    nEnd := LocateName(str, nStart);
    sEnd := |str|;
    if nEnd < |str| {
      sEnd := LocateSignature(str, nEnd + 1, str[nStart..nEnd]);
    }
  }

  method ReadFields(str: string, evs: nat) returns (outcome: Outcome)
    ensures outcome == ParseText(Cut(str), [], evs)
  {
    var records: seq<Record> := [];
    var nStart := 0;
    ghost var text := Cut(str);
    assert str[0..] == str;
    while true
      invariant nStart <= |str|
      invariant text == Cut(str[nStart..])
      invariant ParseText(Cut(str), [], evs) == ParseText(text, records, evs)
      decreases |str| - nStart
    {
      var nEnd, sEnd, _ := LocateField(str, nStart);
      if nEnd == |str| || (sEnd == |str| && |records| + 1 != evs) {
        return WrongFormat;
      }
      if |records| >= evs {
        return Parsed(records, evs);
      }
      var name, sig := str[nStart..nEnd], str[nEnd + 1..sEnd];
      var error := CheckField(name, sig);
      if error.Some? {
        return error.value;
      }
      records := records + [InitRecord(name, sig)];
      if sEnd == |str| || sEnd + 1 == |str| {
        return Parsed(records, evs);
      }
      nStart, text := sEnd + 1, text.rest;
    }
  }

  /** vms_source_control_define_str: pointers into the string are positions. */
  method DefineStr(str: string) returns (outcome: Outcome)
    ensures outcome == Define(str)
  {
    var evs, commas := CountEvents(str);
    if !GoodCounts(evs, commas) {
      return WrongFormat;
    }
    outcome := ReadFields(str, evs);
  }

  // ---------------------------------------------------------------------
  // The parser inverts printing, and accepts nothing but printings
  // ---------------------------------------------------------------------

  datatype Field = Field(name: string, sig: string)

  predicate GoodField(f: Field) {
    && ':' !in f.name && |f.name| < LOCAL_BUFFER
    && ValidSignature(f.sig) && |f.sig| < LOCAL_BUFFER
  }

  /** No separator where it would be taken for one. */
  predicate Separable(f: Field) {
    ':' !in f.name && ':' !in f.sig && ',' !in f.sig
  }

  predicate SeparableFields(fields: seq<Field>) {
    fields != [] && forall i :: 0 <= i < |fields| ==> Separable(fields[i])
  }

  predicate GoodFields(fields: seq<Field>) {
    fields != [] && forall i :: 0 <= i < |fields| ==> GoodField(fields[i])
  }

  function PrintField(f: Field): string {
    f.name + ":" + f.sig
  }

  function Print(fields: seq<Field>, trailing: bool): string
    requires fields != []
    decreases |fields|, 0
  {
    PrintField(fields[0]) + Tail(fields[1..], trailing)
  }

  /** A comma and what follows it, or nothing. */
  function Tail(rest: seq<Field>, trailing: bool): string
    decreases |rest|, 1
  {
    if rest != [] then "," + Print(rest, trailing) else if trailing then "," else ""
  }

  function Records(fields: seq<Field>): seq<Record>
    requires forall i :: 0 <= i < |fields| ==> GoodField(fields[i])
  {
    if fields == [] then []
    else
      assert GoodField(fields[0]);
      [InitRecord(fields[0].name, fields[0].sig)] + Records(fields[1..])
  }

  function NameCommas(fields: seq<Field>): nat {
    if fields == [] then 0 else Count(fields[0].name, ',') + NameCommas(fields[1..])
  }

  /** A comma inside a name passes for the trailing one; two of them do not. */
  predicate CommasFit(fields: seq<Field>, trailing: bool) {
    NameCommas(fields) + (if trailing then 1 else 0) <= 1
  }

  lemma {:induction false} CountConcat(a: string, b: string, c: char)
    ensures Count(a + b, c) == Count(a, c) + Count(b, c)
  {
    if a == [] {
      assert a + b == b;
    } else {
      assert (a + b)[1..] == a[1..] + b;
      CountConcat(a[1..], b, c);
    }
  }

  lemma {:induction false} CountAbsent(s: string, c: char)
    requires c !in s
    ensures Count(s, c) == 0
  {
    if s != [] {
      CountAbsent(s[1..], c);
    }
  }

  lemma {:induction false} OperandsOnly(sig: string, c: nat)
    requires SizeFrom(sig, c).Some?
    ensures forall i :: c <= i < |sig| ==> OperandSize(sig[i]).Some?
    decreases |sig| - c
  {
    if c < |sig| {
      OperandsOnly(sig, c + 1);
    }
  }

  lemma NoSeparator(sig: string)
    requires ValidSignature(sig)
    ensures ',' !in sig && ':' !in sig
  {
    OperandsOnly(sig, 0);
  }

  lemma CountField(f: Field)
    requires Separable(f)
    ensures Count(PrintField(f), ':') == 1
    ensures Count(PrintField(f), ',') == Count(f.name, ',')
  {
    assert Count(":", ':') == 1 && Count(":", ',') == 0;
    CountAbsent(f.sig, ',');
    CountAbsent(f.sig, ':');
    CountAbsent(f.name, ':');
    CountConcat(f.name, ":", ':');
    CountConcat(f.name, ":", ',');
    CountConcat(f.name + ":", f.sig, ':');
    CountConcat(f.name + ":", f.sig, ',');
  }

  lemma {:induction false} CountPrint(fields: seq<Field>, trailing: bool)
    requires SeparableFields(fields)
    ensures Count(Print(fields, trailing), ':') == |fields|
    ensures Count(Print(fields, trailing), ',') + 1 ==
            |fields| + NameCommas(fields) + (if trailing then 1 else 0)
  {
    CountField(fields[0]);
    assert Count(",", ':') == 0 && Count(",", ',') == 1;
    assert NameCommas(fields) == Count(fields[0].name, ',') + NameCommas(fields[1..]);
    var tail := Tail(fields[1..], trailing);
    CountConcat(PrintField(fields[0]), tail, ':');
    CountConcat(PrintField(fields[0]), tail, ',');
    if |fields| > 1 {
      CountPrint(fields[1..], trailing);
      CountConcat(",", Print(fields[1..], trailing), ':');
      CountConcat(",", Print(fields[1..], trailing), ',');
    }
  }

  lemma GoodIsSeparable(fields: seq<Field>)
    requires GoodFields(fields)
    ensures SeparableFields(fields)
  {
    forall i | 0 <= i < |fields|
      ensures Separable(fields[i])
    {
      NoSeparator(fields[i].sig);
    }
  }

  lemma {:induction false} FindAfter(a: string, b: string, c: char)
    requires c !in a
    requires b == [] || b[0] == c
    ensures Find(a + b, c) == |a|
  {
    if a == [] {
      assert a + b == b;
    } else {
      assert (a + b)[1..] == a[1..] + b;
      FindAfter(a[1..], b, c);
    }
  }

  lemma {:induction false} FindSplits(s: string, c: char)
    ensures c !in s[..Find(s, c)]
    ensures Find(s, c) < |s| ==> s[Find(s, c)] == c
  {
    if s != [] && s[0] != c {
      FindSplits(s[1..], c);
      assert s[..Find(s, c)] == [s[0]] + s[1..][..Find(s[1..], c)];
    }
  }

  lemma PrintedSlices(f: Field, tail: string)
    ensures var s := PrintField(f) + tail; var n := |f.name|; var m := |f.sig|;
            && s == f.name + (":" + f.sig + tail)
            && |s| == n + 1 + m + |tail| && s[..n] == f.name && s[n + 1..] == f.sig + tail
            && (f.sig + tail)[..m] == f.sig
            && (tail != [] ==> (f.sig + tail)[m + 1..] == tail[1..])
  {
  }

  /** The cut of a text that starts with a printed field. */
  lemma CutPrintedField(f: Field, tail: string)
    requires Separable(f)
    requires tail == [] || tail[0] == ','
    ensures Cut(PrintField(f) + tail) ==
            if |tail| <= 1 then LastField(f.name, f.sig, tail != []) else FieldAnd(f.name, f.sig, Cut(tail[1..]))
  {
    PrintedSlices(f, tail);
    FindAfter(f.name, ":" + f.sig + tail, ':');
    FindAfter(f.sig, tail, ',');
    assert Cut(PrintField(f) + tail) == CutSignature(f.name, f.sig + tail);
  }

  function TextOf(fields: seq<Field>, trailing: bool): Text
    requires fields != []
  {
    if |fields| == 1 then LastField(fields[0].name, fields[0].sig, trailing)
    else FieldAnd(fields[0].name, fields[0].sig, TextOf(fields[1..], trailing))
  }

  lemma {:induction false} CutInvertsPrint(fields: seq<Field>, trailing: bool)
    requires SeparableFields(fields)
    ensures Cut(Print(fields, trailing)) == TextOf(fields, trailing)
  {
    var rest := fields[1..];
    var tail := Tail(rest, trailing);
    CutPrintedField(fields[0], tail);
    if rest != [] {
      assert tail[1..] == Print(rest, trailing);
      CutInvertsPrint(rest, trailing);
    }
  }

  lemma {:induction false} ParseTextOf(fields: seq<Field>, trailing: bool, rs: seq<Record>, evs: nat)
    requires GoodFields(fields)
    requires evs == |rs| + |fields|
    ensures ParseText(TextOf(fields, trailing), rs, evs) == Parsed(rs + Records(fields), evs)
    decreases |fields|
  {
    var f, rest := fields[0], fields[1..];
    var rs' := rs + [InitRecord(f.name, f.sig)];
    assert rs' + Records(rest) == rs + Records(fields);
    if rest != [] {
      ParseTextOf(rest, trailing, rs', evs);
    } else {
      assert rs' + [] == rs';
    }
  }

  /** What was printed is read back, every record filled, with or without a trailing
      comma. */
  lemma DefineInvertsPrint(fields: seq<Field>, trailing: bool)
    requires GoodFields(fields) && CommasFit(fields, trailing)
    ensures Define(Print(fields, trailing)) == Parsed(Records(fields), |fields|)
  {
    GoodIsSeparable(fields);
    CountPrint(fields, trailing);
    CutInvertsPrint(fields, trailing);
    ParseTextOf(fields, trailing, [], |fields|);
    assert [] + Records(fields) == Records(fields);
  }

  // The converse

  function FirstField(t: Text): Field
    requires !t.NoField?
  {
    Field(t.name, t.sig)
  }

  lemma CutAtColon(s: string) returns (name: string, rest: string)
    requires !Cut(s).NoField?
    ensures ':' !in name && s == name + ":" + rest
    ensures Cut(s) == CutSignature(name, rest)
  {
    var n := Find(s, ':');
    FindSplits(s, ':');
    name, rest := s[..n], s[n + 1..];
  }

  lemma CutSignatureIsPrinted(name: string, s: string) returns (tail: string)
    ensures s == CutSignature(name, s).sig + tail
    ensures CutSignature(name, s).LastField? ==> tail == if CutSignature(name, s).comma then "," else ""
    ensures CutSignature(name, s).FieldAnd? ==>
              |tail| > 0 && tail == "," + tail[1..] && CutSignature(name, s).rest == Cut(tail[1..])
  {
    var m := Find(s, ',');
    FindSplits(s, ',');
    tail := s[m..];
    if m + 1 < |s| {
      assert tail[1..] == s[m + 1..];
    }
  }

  lemma Reassociate(name: string, sig: string, tail: string)
    ensures name + ":" + (sig + tail) == PrintField(Field(name, sig)) + tail
  {
  }

  /** What a cut says about the text in front of it. */
  lemma CutIsPrinted(s: string) returns (tail: string)
    requires !Cut(s).NoField?
    ensures s == PrintField(FirstField(Cut(s))) + tail && ':' !in Cut(s).name
    ensures Cut(s).LastField? ==> tail == if Cut(s).comma then "," else ""
    ensures Cut(s).FieldAnd? ==> |tail| > 0 && tail == "," + tail[1..] && Cut(s).rest == Cut(tail[1..])
  {
    var name, rest := CutAtColon(s);
    tail := CutSignatureIsPrinted(name, rest);
    Reassociate(name, Cut(s).sig, tail);
  }

  lemma CountTail(f: Field, tail: string)
    ensures Count(PrintField(f) + tail, ':') >= 1
    ensures GoodField(f) ==> Count(PrintField(f) + tail, ':') == 1 + Count(tail, ':')
    ensures tail != [] && tail[0] == ',' ==> Count(tail, ':') == Count(tail[1..], ':')
  {
    CountConcat(PrintField(f), tail, ':');
    CountConcat(f.name + ":", f.sig, ':');
    CountConcat(f.name, ":", ':');
    assert Count(":", ':') == 1;
    if GoodField(f) {
      NoSeparator(f.sig);
      CountField(f);
    }
  }

  lemma {:induction false} ParsedIsPrinted(s: string, rs: seq<Record>, evs: nat)
    returns (fields: seq<Field>, trailing: bool)
    requires ParseText(Cut(s), rs, evs).Parsed?
    requires Count(s, ':') + |rs| == evs
    ensures GoodFields(fields) && s == Print(fields, trailing)
    ensures |rs| + |fields| == evs
    decreases |s|
  {
    var t := Cut(s);
    var tail := CutIsPrinted(s);
    var f := FirstField(t);
    CountTail(f, tail);
    assert GoodField(f);
    if t.LastField? {
      fields, trailing := [f], t.comma;
      assert tail == Tail([], trailing);
    } else {
      var more;
      more, trailing := ParsedIsPrinted(tail[1..], rs + [InitRecord(f.name, f.sig)], evs);
      fields := [f] + more;
      assert fields[1..] == more;
      assert tail == Tail(more, trailing);
    }
  }

  lemma {:induction false} RecordsLength(fields: seq<Field>)
    requires forall i :: 0 <= i < |fields| ==> GoodField(fields[i])
    ensures |Records(fields)| == |fields|
    ensures forall i :: 0 <= i < |fields| ==> Records(fields)[i] == InitRecord(fields[i].name, fields[i].sig)
  {
    if fields != [] {
      RecordsLength(fields[1..]);
      forall i | 0 <= i < |fields|
        ensures Records(fields)[i] == InitRecord(fields[i].name, fields[i].sig)
      {
        if i > 0 {
          assert fields[i] == fields[1..][i - 1];
        }
      }
    }
  }

  /** The converse: a description that is accepted is the printing of some fields, the
      records are theirs, and none of the `total` records is left unfilled. */
  lemma OnlyPrintingsAreAccepted(str: string) returns (fields: seq<Field>, trailing: bool)
    requires Define(str).Parsed?
    ensures GoodFields(fields) && CommasFit(fields, trailing)
    ensures str == Print(fields, trailing)
    ensures Define(str) == Parsed(Records(fields), |fields|)
    ensures |Define(str).records| == Define(str).total
  {
    fields, trailing := ParsedIsPrinted(str, [], Count(str, ':'));
    GoodIsSeparable(fields);
    CountPrint(fields, trailing);
    DefineInvertsPrint(fields, trailing);
    RecordsLength(fields);
  }
}
