/** The text form of the generator's node ids: the printer, and the parser that
    reads a C string. */
module NodeIdText {
  import opened Integers
  import opened Options
  import opened TypeModel
  import Decimal

  function Print(id: NodeId): string {
    "ns=" + Decimal.Print(id.ns) +
    match id
    case Numeric(_, number) => ";i=" + Decimal.PrintInt(number)
    case Textual(_, text) => ";s=" + text
  }

  // ----- The C library functions the parser uses -----

  /** The content of a C string: no NUL in it. */
  predicate NulFree(s: string) {
    forall i | 0 <= i < |s| :: s[i] != '\0'
  }

  predicate IsSpace(c: char) {
    c == ' ' || '\t' <= c <= '\r'
  }

  function SkipSpace(s: string): string {
    if s != "" && IsSpace(s[0]) then SkipSpace(s[1..]) else s
  }

  function LeadingDigits(s: string): (d: string)
    ensures Decimal.AllDigits(d)
  {
    if s != "" && Decimal.IsDigit(s[0]) then [s[0]] + LeadingDigits(s[1..]) else ""
  }

  /** The number `atoi` reads; None where C leaves the result undefined, which
      is when the number is not an `int`. */
  function Atoi(s: string): Option<int32> {
    ReadSigned(SkipSpace(s))
  }

  function ReadSigned(t: string): Option<int32> {
    if t != "" && t[0] == '-' then AsInt(-Number(t[1..]))
    else if t != "" && t[0] == '+' then AsInt(Number(t[1..]))
    else AsInt(Number(t))
  }

  function Number(s: string): int {
    Decimal.Value(LeadingDigits(s))
  }

  function AsInt(i: int): Option<int32> {
    if -0x8000_0000 <= i < 0x8000_0000 then Some(i) else None
  }

  function Find(s: string, c: char): (r: Option<nat>)
    ensures match r
      case None => c !in s
      case Some(k) => k < |s| && s[k] == c && c !in s[..k]
  {
    if s == "" then None
    else if s[0] == c then Some(0)
    else
      var r := Find(s[1..], c);
      assert r.Some? ==> s[..r.value + 1] == [s[0]] + s[1..][..r.value];
      if r.Some? then Some(r.value + 1) else None
  }

  // ----- The parser -----

  /** Undefined: the code reads past the end of the string, or hands `atoi` a
      number that is not an `int`. */
  datatype Parsed = Parsed(id: NodeId) | Undefined

  const NULL_ID := Numeric(0, 0)

  function MakeNumeric(ns: Option<int32>, number: Option<int32>): Parsed {
    if ns.None? || number.None? then Undefined else Parsed(Numeric(ns.value % 0x1_0000, number.value))
  }

  function MakeTextual(ns: Option<int32>, text: string): Parsed {
    if ns.None? then Undefined else Parsed(Textual(ns.value % 0x1_0000, text))
  }

  /** `None` is the null pointer. */
  function Extract(cString: Option<string>): Parsed
    requires cString.Some? ==> NulFree(cString.value)
  {
    if cString.None? || |cString.value| < 3 then Parsed(NULL_ID)
    else
      var s := cString.value;
      match Find(s, ';')
      case None =>
        if s[0] == 'i' then MakeNumeric(Some(0), Atoi(s[2..]))
        else if s[0] == 's' then Parsed(Textual(0, s[2..]))
        else Parsed(NULL_ID)
      case Some(k) =>
        var kind := if k + 1 < |s| then s[k + 1] else '\0';
        if kind != 'i' && kind != 's' then Parsed(NULL_ID)
        else if k + 3 > |s| then Undefined
        else if kind == 'i' then MakeNumeric(Atoi(s[3..]), Atoi(s[k + 3..]))
        else MakeTextual(Atoi(s[3..]), s[k + 3..])
  }

  /** The null pointer, and text too short to hold an id, give the null id. */
  lemma NullAndShortText(cString: Option<string>)
    requires cString.Some? ==> NulFree(cString.value) && |cString.value| < 3
    ensures Extract(cString) == Parsed(Numeric(0, 0))
  {
  }

  /** White space of the C locale: a blank, or one of the codes 9 to 13. */
  predicate IsWhite(s: string) {
    forall i | 0 <= i < |s| :: s[i] as int == 32 || 9 <= s[i] as int <= 13
  }

  lemma {:induction false} SkipsSpace(space: string, s: string)
    requires IsWhite(space) && (s == "" || !IsSpace(s[0]))
    ensures SkipSpace(space + s) == s
  {
    if space == "" {
      assert space + s == s;
    } else {
      assert (space + s)[1..] == space[1..] + s && (space + s)[0] == space[0];
      SkipsSpace(space[1..], s);
    }
  }

  lemma NumberAhead(digits: string, rest: string)
    requires Decimal.AllDigits(digits) && digits != "" && Decimal.StartsOffDigit(rest)
    ensures Number(digits + rest) == Decimal.Value(digits)
    ensures digits + rest != "" && Decimal.IsDigit((digits + rest)[0])
  {
    LeadingDigitsOf(digits, rest);
  }

  lemma AfterSign(c: char, tail: string)
    requires c == '+' || c == '-'
    ensures ReadSigned([c] + tail) == AsInt(if c == '-' then -Number(tail) else Number(tail))
    ensures [c] + tail != "" && !IsSpace(([c] + tail)[0])
  {
    hide Number, AsInt;
    assert ([c] + tail)[1..] == tail;
  }

  /** `atoi` skips white space, takes one sign and then digits, and ignores the rest;
      the number must be an `int`. */
  lemma AtoiReads(space: string, digits: string, rest: string)
    requires IsWhite(space)
    requires Decimal.AllDigits(digits) && digits != "" && Decimal.StartsOffDigit(rest)
    ensures Atoi(space + (digits + rest)) == AsInt(Decimal.Value(digits))
    ensures Atoi(space + (['+'] + (digits + rest))) == AsInt(Decimal.Value(digits))
    ensures var v: int := Decimal.Value(digits); Atoi(space + (['-'] + (digits + rest))) == AsInt(-v)
  {
    hide IsWhite, Decimal.AllDigits, Decimal.StartsOffDigit, Decimal.Value, SkipSpace, Number, AsInt;
    var tail := digits + rest;
    NumberAhead(digits, rest);
    AfterSign('+', tail);
    AfterSign('-', tail);
    SkipsSpace(space, tail);
    SkipsSpace(space, ['+'] + tail);
    SkipsSpace(space, ['-'] + tail);
  }

  // ----- Parsing what was printed -----

  lemma {:induction false} LeadingDigitsOf(d: string, rest: string)
    requires Decimal.AllDigits(d) && Decimal.StartsOffDigit(rest)
    ensures LeadingDigits(d + rest) == d
    decreases |d|
  {
    if d == "" {
      assert d + rest == rest;
    } else {
      assert (d + rest)[1..] == d[1..] + rest;
      LeadingDigitsOf(d[1..], rest);
    }
  }

  lemma AtoiOfPrinted(i: int32, rest: string)
    requires Decimal.StartsOffDigit(rest)
    ensures Atoi(Decimal.PrintInt(i) + rest) == Some(i)
  {
    var n := Decimal.Magnitude(i);
    var s := Decimal.PrintInt(i) + rest;
    Decimal.SignShows(i, rest);
    assert Decimal.IsDigit(Decimal.Print(n)[0]);
    assert s[0] == Decimal.PrintInt(i)[0];
    assert SkipSpace(s) == s;
    Decimal.ValueOfPrint(n);
    LeadingDigitsOf(Decimal.Print(n), rest);
  }

  lemma {:induction false} FindAfter(head: string, c: char, tail: string)
    requires c !in head
    ensures Find(head + [c] + tail, c) == Some(|head|)
    decreases |head|
  {
    if head == "" {
      assert head + [c] + tail == [c] + tail;
    } else {
      assert (head + [c] + tail)[1..] == head[1..] + [c] + tail;
      FindAfter(head[1..], c, tail);
    }
  }

  function LongForm(ns: uint16, kind: char, rest: string): string {
    "ns=" + Decimal.Print(ns) + ([';', kind, '='] + rest)
  }

  lemma LongFormParts(ns: uint16, kind: char, rest: string)
    requires NulFree(rest) && (kind == 'i' || kind == 's')
    ensures var s, k := LongForm(ns, kind, rest), 3 + |Decimal.Print(ns)|;
      && NulFree(s) && Find(s, ';') == Some(k)
      && |s| == k + 3 + |rest| && s[k + 1] == kind && s[k + 3..] == rest
      && Atoi(s[3..]) == Some(ns)
  {
    hide Atoi, Find, Decimal.Print;
    var digits := Decimal.Print(ns);
    var head := "ns=" + digits;
    var s := LongForm(ns, kind, rest);
    assert Decimal.AllDigits(digits);
    FindAfter(head, ';', [kind, '='] + rest);
    assert s == head + [';'] + ([kind, '='] + rest);
    AtoiOfPrinted(ns, [';', kind, '='] + rest);
    assert s[3..] == Decimal.PrintInt(ns) + ([';', kind, '='] + rest);
  }

  /** The long form `ns=<n>;<kind>=<rest>` is read field by field. */
  lemma ExtractLongForm(ns: uint16, kind: char, rest: string)
    requires NulFree(rest) && (kind == 'i' || kind == 's')
    ensures NulFree(LongForm(ns, kind, rest))
    ensures Extract(Some(LongForm(ns, kind, rest))) ==
      if kind == 'i' then MakeNumeric(Some(ns), Atoi(rest)) else Parsed(Textual(ns, rest))
  {
    hide Atoi, Find, LongForm;
    LongFormParts(ns, kind, rest);
  }

  /** A namespace index beyond 16 bits wraps, in both forms of id. */
  lemma NamespaceWraps(n: nat, kind: char, rest: string)
    requires n < 0x8000_0000 && NulFree(rest) && (kind == 'i' || kind == 's')
    ensures var s := "ns=" + Decimal.Print(n) + ([';', kind, '='] + rest);
      NulFree(s) && Extract(Some(s)) ==
        if kind == 's' then Parsed(Textual(n % 0x1_0000, rest))
        else match Atoi(rest) case None => Undefined case Some(i) => Parsed(Numeric(n % 0x1_0000, i))
  {
    hide Atoi, Find, Decimal.Print;
    var digits := Decimal.Print(n);
    var head := "ns=" + digits;
    var s := head + ([';', kind, '='] + rest);
    FindAfter(head, ';', [kind, '='] + rest);
    assert s == head + [';'] + ([kind, '='] + rest);
    AtoiOfPrinted(n, [';', kind, '='] + rest);
    assert s[3..] == Decimal.PrintInt(n) + ([';', kind, '='] + rest);
    assert s[|head| + 1] == kind && s[|head| + 3..] == rest;
  }

  /** Text that ends at its first semicolon gives the null id; text that ends one
      letter later is read past its end when the letter announces a value. */
  lemma TextThatEndsEarly(head: string, kind: char)
    requires NulFree(head) && ';' !in head && |head| > 2 && kind != '\0'
    ensures NulFree(head + ";") && Extract(Some(head + ";")) == Parsed(NULL_ID)
    ensures NulFree(head + [';', kind])
    ensures Extract(Some(head + [';', kind])) == if kind == 'i' || kind == 's' then Undefined else Parsed(NULL_ID)
  {
    hide Find, Atoi;
    FindAfter(head, ';', "");
    assert head + ";" == head + [';'] + "";
    FindAfter(head, ';', [kind]);
    assert head + [';', kind] == head + [';'] + [kind];
  }

  /** Parsing a printed id gives the id back. */
  lemma ExtractOfPrint(id: NodeId)
    requires id.Textual? ==> NulFree(id.text)
    ensures NulFree(Print(id)) && Extract(Some(Print(id))) == Parsed(id)
  {
    hide Atoi, Find, Extract;
    match id
    case Numeric(ns, number) =>
      var rest := Decimal.PrintInt(number);
      assert Decimal.AllDigits(Decimal.Print(Decimal.Magnitude(number)));
      assert NulFree(rest);
      ExtractLongForm(ns, 'i', rest);
      AtoiOfPrinted(number, "");
      assert rest + "" == rest;
      assert Print(id) == LongForm(ns, 'i', rest);
    case Textual(ns, text) =>
      ExtractLongForm(ns, 's', text);
      assert Print(id) == LongForm(ns, 's', text);
  }

  lemma NamespaceZero(v: string)
    ensures "ns=0;i=" + v == LongForm(0, 'i', v) && "ns=0;s=" + v == LongForm(0, 's', v)
  {
    assert Decimal.Print(0) == "0";
  }

  /** The short numeric form means namespace 0, for any value without `;`. */
  lemma ShortNumericForm(v: string)
    requires NulFree(v) && ';' !in v
    ensures NulFree("i=" + v) && NulFree("ns=0;i=" + v)
    ensures Extract(Some("i=" + v)) == Extract(Some("ns=0;i=" + v))
  {
    var s := "i=" + v;
    ExtractLongForm(0, 'i', v);
    NamespaceZero(v);
    assert s[2..] == v;
    if v == "" {
      assert LeadingDigits(SkipSpace(v)) == "";
    }
  }

  /** The short text form means namespace 0 exactly for values that are not
      empty and have no `;`. */
  lemma ShortTextForm(v: string)
    requires NulFree(v)
    ensures NulFree("s=" + v) && NulFree("ns=0;s=" + v)
    ensures Extract(Some("s=" + v)) == Extract(Some("ns=0;s=" + v)) <==> v != "" && ';' !in v
  {
    hide Atoi, Find, LongForm;
    var s := "s=" + v;
    ExtractLongForm(0, 's', v);
    NamespaceZero(v);
    assert s[2..] == v;
    assert forall i | 0 <= i < |v| :: s[i + 2] == v[i];
    assert Extract(Some("ns=0;s=" + v)) == Parsed(Textual(0, v));
  }

  /** A value for which the two text forms are read differently. */
  lemma SemicolonBreaksShortForm()
    ensures NulFree("s=a;b") && NulFree("ns=0;s=a;b")
    ensures Extract(Some("s=a;b")) != Extract(Some("ns=0;s=a;b"))
  {
    hide Extract;
    var v := "a;b";
    assert v[1] == ';';
    ShortTextForm(v);
    assert "s=" + v == "s=a;b" && "ns=0;s=" + v == "ns=0;s=a;b";
  }
}
