/** Ids printed by the library and read by the generator's parser. */
module NodeIdExchange {
  import opened Options
  import opened GuidHash
  import opened OpcNodeId
  import Decimal
  import TypeModel
  import NodeIdText

  predicate NulFree(id: NodeId)
    requires Consistent(id)
  {
    id.value.Text? ==> NodeIdText.NulFree(id.value.text)
  }

  /** What the generator knows of an id: it has no Guids and no byte strings. */
  function Seen(id: NodeId): TypeModel.NodeId
    requires Consistent(id)
  {
    match id.kind
    case NUMERIC => TypeModel.Numeric(id.ns, id.value.number)
    case STRING => TypeModel.Textual(id.ns, id.value.text)
    case _ => NodeIdText.NULL_ID
  }

  lemma {:induction false} DashedIsNulFree(numbers: seq<nat>)
    requires numbers != []
    ensures NodeIdText.NulFree(Dashed(numbers))
  {
    if |numbers| > 1 {
      DashedIsNulFree(numbers[1..]);
    }
  }

  lemma ValueIsNulFree(id: NodeId)
    requires Consistent(id) && NulFree(id)
    ensures NodeIdText.NulFree(PrintValue(id))
  {
    match id.kind
    case NUMERIC => assert Decimal.AllDigits(Decimal.Print(Decimal.Magnitude(id.value.number)));
    case GUID => DashedIsNulFree(GuidNumbers(id.value.guid));
    case _ =>
  }

  /** The parser reads numeric and text ids as they were printed, and any other kind
      as the null id. */
  lemma ExtractOfLibraryPrint(id: NodeId)
    requires Consistent(id) && NulFree(id)
    ensures NodeIdText.NulFree(Print(id))
    ensures NodeIdText.Extract(Some(Print(id))) == NodeIdText.Parsed(Seen(id))
  {
    hide NodeIdText.Extract, NodeIdText.NulFree, Dashed, PrintValue;
    ValueIsNulFree(id);
    match id.kind
    case NUMERIC =>
      NodeIdText.ExtractOfPrint(Seen(id));
      SamePrint(id);
    case STRING =>
      NodeIdText.ExtractOfPrint(Seen(id)) by { assert NodeIdText.NulFree(id.value.text); }
      SamePrint(id);
    case GUID => OtherKind(Decimal.Print(id.ns), 'g', PrintValue(id));
    case BYTESTRING => OtherKind(Decimal.Print(id.ns), 'b', PrintValue(id));
  }

  lemma SamePrint(id: NodeId)
    requires Consistent(id) && (id.kind == NUMERIC || id.kind == STRING)
    ensures Print(id) == NodeIdText.Print(Seen(id))
  {
    hide Decimal.Print, Decimal.PrintInt;
    SameText(Decimal.Print(id.ns), PrintValue(id));
  }

  lemma SameText(ns: string, v: string)
    ensures "ns=" + (ns + ([';', 'i', '='] + v)) == "ns=" + ns + (";i=" + v)
    ensures "ns=" + (ns + ([';', 's', '='] + v)) == "ns=" + ns + (";s=" + v)
  {
  }

  lemma OtherKind(ns: string, kind: char, rest: string)
    requires Decimal.AllDigits(ns) && NodeIdText.NulFree(rest) && kind != 'i' && kind != 's' && kind != '\0'
    ensures var s := "ns=" + (ns + ([';', kind, '='] + rest));
      NodeIdText.NulFree(s) && NodeIdText.Extract(Some(s)) == NodeIdText.Parsed(NodeIdText.NULL_ID)
  {
    hide NodeIdText.Find, NodeIdText.Atoi;
    var s := "ns=" + (ns + ([';', kind, '='] + rest));
    var head := "ns=" + ns;
    NodeIdText.FindAfter(head, ';', [kind, '='] + rest);
    assert s == head + [';'] + ([kind, '='] + rest);
    assert s[|head| + 1] == kind;
  }
}
