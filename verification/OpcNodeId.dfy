/** Node ids of the library: four identifier kinds, their text form, and their
    conversion to and from the C representation. */
module OpcNodeId {
  import opened Options
  import opened GuidHash
  import opened Integers
  import Decimal

  datatype Kind = NUMERIC | STRING | GUID | BYTESTRING

  datatype Value =
    | Number(number: int32)
    | Text(text: string)
    | GuidValue(guid: Guid)

  datatype NodeId = NodeId(ns: uint16, kind: Kind, value: Value)

  /** The value is of the kind the tag announces. */
  predicate Consistent(id: NodeId) {
    match id.kind
    case NUMERIC => id.value.Number?
    case GUID => id.value.GuidValue? && WellFormed(id.value.guid)
    case _ => id.value.Text?
  }

  /** `operator==`, which reads both values at the kind of the first. */
  predicate Equal(a: NodeId, b: NodeId)
    requires Consistent(a) && Consistent(b)
  {
    a.ns == b.ns && a.kind == b.kind &&
    match a.kind
    case NUMERIC => a.value.number == b.value.number
    case GUID => Bytes(a.value.guid) == Bytes(b.value.guid)
    case _ => a.value.text == b.value.text
  }

  // ----- Text form -----

  /** Numbers in decimal with a dash between each two. */
  function Dashed(numbers: seq<nat>): string
    requires numbers != []
  {
    Decimal.Print(numbers[0]) + (if |numbers| == 1 then "" else "-" + Dashed(numbers[1..]))
  }

  function GuidNumbers(g: Guid): seq<nat> {
    [g.data1, g.data2, g.data3] + g.data4
  }

  function KindLetter(k: Kind): char {
    match k case NUMERIC => 'i' case STRING => 's' case GUID => 'g' case BYTESTRING => 'b'
  }

  function PrintValue(id: NodeId): string
    requires Consistent(id)
  {
    match id.kind
    case NUMERIC => Decimal.PrintInt(id.value.number)
    case GUID => Dashed(GuidNumbers(id.value.guid))
    case _ => id.value.text
  }

  function Print(id: NodeId): string
    requires Consistent(id)
  {
    "ns=" + (Decimal.Print(id.ns) + ([';', KindLetter(id.kind), '='] + PrintValue(id)))
  }

  /** The numbers between the dashes of a text. */
  function NumbersIn(s: string): seq<nat>
    decreases |s|
  {
    match FirstDash(s)
    case None => if Decimal.AllDigits(s) then [Decimal.Value(s)] else []
    case Some(k) => if Decimal.AllDigits(s[..k]) then [Decimal.Value(s[..k])] + NumbersIn(s[k + 1..]) else []
  }

  function FirstDash(s: string): (r: Option<nat>)
    ensures r.Some? ==> r.value < |s|
  {
    if s == "" then None else if s[0] == '-' then Some(0) else
      match FirstDash(s[1..]) case None => None case Some(k) => Some(k + 1)
  }

  lemma {:induction false} FirstDashAfter(digits: string, rest: string)
    requires Decimal.AllDigits(digits)
    ensures FirstDash(digits) == None && FirstDash(digits + "-" + rest) == Some(|digits|)
  {
    if digits == "" {
      assert digits + "-" + rest == "-" + rest;
    } else {
      FirstDashAfter(digits[1..], rest);
      assert (digits + "-" + rest)[1..] == digits[1..] + "-" + rest;
    }
  }

  lemma FirstNumber(digits: string, rest: string)
    requires Decimal.AllDigits(digits)
    ensures NumbersIn(digits) == [Decimal.Value(digits)]
    ensures NumbersIn(digits + ("-" + rest)) == [Decimal.Value(digits)] + NumbersIn(rest)
  {
    FirstDashAfter(digits, rest);
    var s := digits + ("-" + rest);
    assert s == digits + "-" + rest;
    hide FirstDash, Decimal.Value;
    assert s[..|digits|] == digits && s[|digits| + 1..] == rest;
  }

  /** Numbers printed with dashes are read back in order. */
  lemma {:induction false} NumbersInDashed(numbers: seq<nat>)
    requires numbers != []
    ensures NumbersIn(Dashed(numbers)) == numbers
  {
    hide NumbersIn, Dashed, Decimal.Print;
    var digits, more := Decimal.Print(numbers[0]), numbers[1..];
    Decimal.ValueOfPrint(numbers[0]);
    DashedSplit(numbers);
    if more == [] {
      FirstNumber(digits, "");
      assert numbers == [numbers[0]];
    } else {
      FirstNumber(digits, Dashed(more));
      NumbersInDashed(more);
      assert numbers == [numbers[0]] + more;
    }
  }

  lemma DashedSplit(numbers: seq<nat>)
    requires numbers != []
    ensures Dashed(numbers) ==
      Decimal.Print(numbers[0]) + (if numbers[1..] == [] then "" else "-" + Dashed(numbers[1..]))
    ensures numbers[1..] == [] ==> Dashed(numbers) == Decimal.Print(numbers[0])
  {
  }

  /** The printed form: the namespace, the letter of the kind, and the value; a Guid
      is its three leading fields and its eight bytes. */
  lemma PrintForm(id: NodeId)
    requires Consistent(id)
    ensures Print(id) == "ns=" + Decimal.Print(id.ns) + ";" +
      (match id.kind case NUMERIC => "i" case STRING => "s" case GUID => "g" case BYTESTRING => "b") +
      "=" + PrintValue(id)
    ensures id.value.Number? ==> PrintValue(id) == Decimal.PrintInt(id.value.number)
    ensures id.value.Text? ==> PrintValue(id) == id.value.text
    ensures id.value.GuidValue? ==>
      var g := id.value.guid; NumbersIn(PrintValue(id)) == [g.data1, g.data2, g.data3] + g.data4
  {
    if id.value.GuidValue? {
      NumbersInDashed(GuidNumbers(id.value.guid));
    }
    PrintShape(Decimal.Print(id.ns), KindLetter(id.kind), PrintValue(id));
    hide PrintValue, Decimal.Print, NumbersIn;
  }

  lemma PrintShape(ns: string, letter: char, value: string)
    ensures "ns=" + (ns + ([';', letter, '='] + value)) == "ns=" + ns + ";" + [letter] + "=" + value
  {
  }

  lemma {:induction false} DashedDecodes(a: seq<nat>, b: seq<nat>)
    requires a != [] && b != [] && |a| == |b| && Dashed(a) == Dashed(b)
    ensures a == b
    decreases |a|
  {
    var x := if |a| == 1 then "" else "-" + Dashed(a[1..]);
    var y := if |b| == 1 then "" else "-" + Dashed(b[1..]);
    Decimal.PrintDecodes(a[0], x, b[0], y);
    assert a == [a[0]] + a[1..] && b == [b[0]] + b[1..];
    if |a| > 1 {
      assert x[1..] == Dashed(a[1..]) && y[1..] == Dashed(b[1..]);
      DashedDecodes(a[1..], b[1..]);
    }
  }

  lemma EqualIsSame(a: NodeId, b: NodeId)
    requires Consistent(a) && Consistent(b)
    ensures Equal(a, b) <==> a == b
  {
    if a.kind == GUID && b.kind == GUID {
      BytesDetermineGuid(a.value.guid, b.value.guid);
    }
  }

  lemma ValueDecodes(a: NodeId, b: NodeId)
    requires Consistent(a) && Consistent(b) && a.kind == b.kind && PrintValue(a) == PrintValue(b)
    ensures a.value == b.value
  {
    match a.kind
    case NUMERIC =>
      Decimal.PrintIntDecodes(a.value.number, "", b.value.number, "");
    case GUID =>
      var m, n := GuidNumbers(a.value.guid), GuidNumbers(b.value.guid);
      DashedDecodes(m, n);
      assert m[0] == n[0] && m[1] == n[1] && m[2] == n[2] && m[3..] == n[3..];
      assert m[3..] == a.value.guid.data4 && n[3..] == b.value.guid.data4;
    case _ =>
  }

  /** Two ids print alike exactly when `operator==` holds. */
  lemma PrintIsInjective(a: NodeId, b: NodeId)
    requires Consistent(a) && Consistent(b)
    ensures Print(a) == Print(b) <==> Equal(a, b)
  {
    EqualIsSame(a, b);
    if Print(a) == Print(b) {
      var x, y := [';', KindLetter(a.kind), '='] + PrintValue(a), [';', KindLetter(b.kind), '='] + PrintValue(b);
      assert Print(a)[3..] == Decimal.Print(a.ns) + x;
      assert Print(b)[3..] == Decimal.Print(b.ns) + y;
      Decimal.PrintDecodes(a.ns, x, b.ns, y);
      assert x[1] == y[1] && x[3..] == PrintValue(a) && y[3..] == PrintValue(b);
      ValueDecodes(a, b);
    }
  }

  // ----- The C representation -----

  datatype UaIdentifier =
    | UaNumeric(numeric: uint32)
    | UaString(data: string)
    | UaGuid(guid: Guid)
    | UaByteString(data: string)
    | UaUnknown(tag: nat)

  datatype UaNodeId = UaNodeId(ns: uint16, identifier: UaIdentifier)

  predicate UaWellFormed(u: UaNodeId) {
    u.identifier.UaGuid? ==> WellFormed(u.identifier.guid)
  }

  /** `static_cast<int>` of a 32-bit unsigned number. */
  function ToSigned(n: uint32): int32 {
    if n < 0x8000_0000 then n else n - 0x1_0000_0000
  }

  function FromUa(u: UaNodeId): NodeId {
    match u.identifier
    case UaNumeric(n) => NodeId(u.ns, NUMERIC, Number(ToSigned(n)))
    case UaString(data) => NodeId(u.ns, STRING, Text(data))
    case UaGuid(g) => NodeId(u.ns, GUID, GuidValue(g))
    case UaByteString(data) => NodeId(u.ns, BYTESTRING, Text(data))
    case UaUnknown(_) => NodeId(0, NUMERIC, Number(0))
  }

  /** What a C function sees of a string it measures itself. */
  function UpToNul(s: string): (r: string)
    ensures r <= s && '\0' !in r && (|r| < |s| ==> s[|r|] == '\0')
  {
    if s == "" || s[0] == '\0' then "" else [s[0]] + UpToNul(s[1..])
  }

  function ToUa(id: NodeId): UaNodeId
    requires Consistent(id)
  {
    UaNodeId(id.ns,
      match id.kind
      case NUMERIC => UaNumeric(id.value.number % 0x1_0000_0000)
      case STRING => UaString(UpToNul(id.value.text))
      case GUID => UaGuid(id.value.guid)
      case BYTESTRING => UaByteString(UpToNul(id.value.text)))
  }

  /** The C form is of the same kind. */
  lemma ToUaKeepsKind(id: NodeId)
    requires Consistent(id)
    ensures var u := ToUa(id).identifier;
      && ToUa(id).ns == id.ns
      && (id.kind == NUMERIC ==> u.UaNumeric? && (u.numeric - id.value.number) % 0x1_0000_0000 == 0)
      && (id.kind == STRING ==> u.UaString? && u.data <= id.value.text)
      && (id.kind == GUID ==> u.UaGuid? && u.guid == id.value.guid)
      && (id.kind == BYTESTRING ==> u.UaByteString? && u.data <= id.value.text)
  {
    if id.value.Text? {
      UpToNulIsPrefix(id.value.text);
    }
  }

  lemma {:induction false} UpToNulIsPrefix(s: string)
    ensures UpToNul(s) <= s
    ensures UpToNul(s) == s || s[|UpToNul(s)|] == '\0'
  {
    if s != "" && s[0] != '\0' {
      UpToNulIsPrefix(s[1..]);
    }
  }

  /** The id with its text, if it has one, cut at the first NUL. */
  function Cut(id: NodeId): NodeId {
    if id.value.Text? then id.(value := Text(UpToNul(id.value.text))) else id
  }

  lemma CutIsIdentityIff(s: string)
    ensures UpToNul(s) == s <==> '\0' !in s
  {
  }

  /** To the C form and back cuts text at its first NUL, so it gives the id back
      exactly when there is none. */
  lemma ToUaAndBack(id: NodeId)
    requires Consistent(id)
    ensures FromUa(ToUa(id)) == Cut(id)
    ensures FromUa(ToUa(id)) == id <==> (id.value.Text? ==> '\0' !in id.value.text)
  {
    if id.value.Text? {
      CutIsIdentityIff(id.value.text);
    }
  }

  /** From the C form and back is the identity exactly for the four known kinds
      with text free of NUL: on all numbers and all Guids. */
  lemma FromUaAndBack(u: UaNodeId)
    requires UaWellFormed(u)
    ensures Consistent(FromUa(u))
    ensures ToUa(FromUa(u)) == u <==>
      && !u.identifier.UaUnknown?
      && (u.identifier.UaString? || u.identifier.UaByteString? ==> '\0' !in u.identifier.data)
  {
    if u.identifier.UaString? || u.identifier.UaByteString? {
      CutIsIdentityIff(u.identifier.data);
    }
  }

  /** What an unknown identifier kind is read as. */
  function Known(u: UaNodeId): UaNodeId {
    if u.identifier.UaUnknown? then UaNodeId(0, UaNumeric(0)) else u
  }

  /** No two ids of known kinds are read as the same id; every unknown kind is
      read as the null id. */
  lemma FromUaIsInjective(u: UaNodeId, v: UaNodeId)
    requires UaWellFormed(u) && UaWellFormed(v)
    ensures Equal(FromUa(u), FromUa(v)) <==> Known(u) == Known(v)
  {
    EqualIsSame(FromUa(u), FromUa(v));
  }

  /** Two ids name the same C node exactly when they agree up to the first NUL. */
  lemma ToUaAgreesIff(a: NodeId, b: NodeId)
    requires Consistent(a) && Consistent(b)
    ensures ToUa(a) == ToUa(b) <==> Cut(a) == Cut(b)
  {
    ToUaAndBack(a);
    ToUaAndBack(b);
  }
}
