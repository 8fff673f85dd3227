/** The bracket structure of text, and output streams kept as the pieces that
    were inserted into them. */
module Nesting {
  import opened Options

  datatype Bracket = Brace | Paren | Square

  predicate IsBracket(c: char) {
    c == '{' || c == '}' || c == '(' || c == ')' || c == '[' || c == ']'
  }

  predicate Plain(s: string) {
    forall i | 0 <= i < |s| :: !IsBracket(s[i])
  }

  /** Fixed program text without brackets. */
  type Fragment = s: string | Plain(s) witness ""

  /** What a stream receives: fixed text, a name taken from the model, a bracket. */
  datatype Piece =
    | Code(fixed: Fragment)
    | Name(name: string)
    | Open(bracket: Bracket)
    | Close(bracket: Bracket)

  function PieceText(p: Piece): string {
    match p
    case Code(fixed) => fixed
    case Name(name) => name
    case Open(b) => (match b case Brace => "{" case Paren => "(" case Square => "[")
    case Close(b) => (match b case Brace => "}" case Paren => ")" case Square => "]")
  }

  /** The characters in the stream. */
  function Characters(ps: seq<Piece>): string {
    if ps == [] then "" else Characters(ps[..|ps| - 1]) + PieceText(ps[|ps| - 1])
  }

  /** The stream's text is that of its pieces, one after the other. */
  lemma {:induction false} CharactersConcat(a: seq<Piece>, b: seq<Piece>)
    ensures Characters(a + b) == Characters(a) + Characters(b)
  {
    hide PieceText;
    if b == [] {
      assert a + b == a;
    } else {
      var front, last := b[..|b| - 1], b[|b| - 1];
      CharactersConcat(a, front);
      assert (a + b)[..|a + b| - 1] == a + front && (a + b)[|a + b| - 1] == last;
      assert Characters(a + b) == Characters(a + front) + PieceText(last);
    }
  }

  lemma CharactersOfOne(p: Piece)
    ensures p.Code? ==> Characters([p]) == p.fixed
    ensures p.Name? ==> Characters([p]) == p.name
    ensures p.Open? ==> |Characters([p])| == 1 && Characters([p])[0] in "{(["
    ensures p.Close? ==> |Characters([p])| == 1 && Characters([p])[0] in "})]"
  {
    assert [p][..0] == [];
    assert "{(["[0] == '{' && "{(["[1] == '(' && "{(["[2] == '[';
    assert "})]"[0] == '}' && "})]"[1] == ')' && "})]"[2] == ']';
  }

  /** Reads `s` with the brackets of `open` open, innermost last; None when a
      closing bracket does not fit. */
  function Scan(open: seq<Bracket>, s: string): Option<seq<Bracket>>
    decreases |s|
  {
    if s == "" then Some(open)
    else match s[0]
      case '{' => Scan(open + [Brace], s[1..])
      case '(' => Scan(open + [Paren], s[1..])
      case '[' => Scan(open + [Square], s[1..])
      case '}' => if Innermost(open, Brace) then Scan(open[..|open| - 1], s[1..]) else None
      case ')' => if Innermost(open, Paren) then Scan(open[..|open| - 1], s[1..]) else None
      case ']' => if Innermost(open, Square) then Scan(open[..|open| - 1], s[1..]) else None
      case _ => Scan(open, s[1..])
  }

  predicate Innermost(open: seq<Bracket>, b: Bracket) {
    open != [] && open[|open| - 1] == b
  }

  ghost predicate WellNested(s: string) {
    Scan([], s) == Some([])
  }

  lemma {:induction false} ScanConcat(open: seq<Bracket>, a: string, b: string)
    ensures Scan(open, a + b) == match Scan(open, a) case None => None case Some(mid) => Scan(mid, b)
    decreases |a|
  {
    if a == "" {
      assert a + b == b;
    } else {
      assert (a + b)[1..] == a[1..] + b;
      match a[0]
      case '{' => ScanConcat(open + [Brace], a[1..], b);
      case '(' => ScanConcat(open + [Paren], a[1..], b);
      case '[' => ScanConcat(open + [Square], a[1..], b);
      case _ =>
        if IsBracket(a[0]) {
          if open != [] {
            ScanConcat(open[..|open| - 1], a[1..], b);
          }
        } else {
          ScanConcat(open, a[1..], b);
        }
    }
  }

  lemma {:induction false} PlainScan(open: seq<Bracket>, s: string)
    requires Plain(s)
    ensures Scan(open, s) == Some(open)
    decreases |s|
  {
    if s != "" {
      PlainScan(open, s[1..]);
    }
  }

  // ----- The same on pieces -----

  /** `ps` read with `open` open: names must be plain and brackets fit. */
  ghost function ScanPieces(open: seq<Bracket>, ps: seq<Piece>): Option<seq<Bracket>> {
    if ps == [] then Some(open) else
      match ScanPieces(open, ps[..|ps| - 1])
      case None => None
      case Some(mid) =>
        match ps[|ps| - 1]
        case Code(_) => Some(mid)
        case Name(name) => if Plain(name) then Some(mid) else None
        case Open(b) => Some(mid + [b])
        case Close(b) => if Innermost(mid, b) then Some(mid[..|mid| - 1]) else None
  }

  /** Reading pieces is reading their text. */
  lemma {:induction false} ScanPiecesIsScan(open: seq<Bracket>, ps: seq<Piece>)
    requires ScanPieces(open, ps).Some?
    ensures Scan(open, Characters(ps)) == ScanPieces(open, ps)
  {
    if ps != [] {
      var front, last := ps[..|ps| - 1], ps[|ps| - 1];
      ScanPiecesIsScan(open, front);
      ScanConcat(open, Characters(front), PieceText(last));
      if last.Code? || last.Name? {
        PlainScan(ScanPieces(open, front).value, PieceText(last));
      } else {
        assert PieceText(last)[1..] == "";
      }
    }
  }

  lemma {:induction false} ScanPiecesConcat(open: seq<Bracket>, a: seq<Piece>, b: seq<Piece>)
    ensures ScanPieces(open, a + b) ==
      match ScanPieces(open, a) case None => None case Some(mid) => ScanPieces(mid, b)
  {
    if b == [] {
      assert a + b == a;
    } else {
      ScanPiecesConcat(open, a, b[..|b| - 1]);
      assert (a + b)[..|a + b| - 1] == a + b[..|b| - 1];
    }
  }

  /** Pieces that close what they open and nothing else. */
  ghost predicate Balanced(ps: seq<Piece>) {
    forall open :: ScanPieces(open, ps) == Some(open)
  }

  /** Only fixed text and plain names. */
  ghost predicate Inline(ps: seq<Piece>) {
    forall p | p in ps :: p.Code? || (p.Name? && Plain(p.name))
  }

  lemma {:induction false} InlineScan(open: seq<Bracket>, ps: seq<Piece>)
    requires Inline(ps)
    ensures ScanPieces(open, ps) == Some(open)
  {
    if ps != [] {
      InlineScan(open, ps[..|ps| - 1]);
    }
  }

  lemma BalancedInline(ps: seq<Piece>)
    requires Inline(ps)
    ensures Balanced(ps)
  {
    forall open {
      InlineScan(open, ps);
    }
  }

  lemma BalancedConcat(a: seq<Piece>, b: seq<Piece>)
    requires (Inline(a) || Balanced(a)) && (Inline(b) || Balanced(b))
    ensures Balanced(a + b)
  {
    if Inline(a) { BalancedInline(a); }
    if Inline(b) { BalancedInline(b); }
    forall open {
      ScanPiecesConcat(open, a, b);
    }
  }

  function Group(b: Bracket, body: seq<Piece>): seq<Piece> {
    [Open(b)] + body + [Close(b)]
  }

  lemma BalancedGroup(b: Bracket, body: seq<Piece>)
    requires Inline(body) || Balanced(body)
    ensures Balanced(Group(b, body))
  {
    if Inline(body) { BalancedInline(body); }
    forall open
      ensures ScanPieces(open, Group(b, body)) == Some(open)
    {
      ScanPiecesConcat(open, [Open(b)], body);
      ScanPiecesConcat(open, [Open(b)] + body, [Close(b)]);
      assert (open + [b])[..|open|] == open;
      assert [Open(b)][..0] == [] && [Close(b)][..0] == [];
    }
  }

  /** Several insertions in a row. */
  function Cat(parts: seq<seq<Piece>>): seq<Piece> {
    if parts == [] then [] else Cat(parts[..|parts| - 1]) + parts[|parts| - 1]
  }

  lemma CatSplit(parts: seq<seq<Piece>>, last: seq<Piece>)
    ensures Cat(parts + [last]) == Cat(parts) + last
  {
    assert (parts + [last])[..|parts|] == parts;
  }

  lemma Cat3(a: seq<Piece>, b: seq<Piece>, c: seq<Piece>)
    ensures Cat([a, b, c]) == a + b + c
  {
    assert Cat([]) == [];
    hide Cat;
    CatSplit([], a);
    CatSplit([a], b);
    CatSplit([a, b], c);
    assert [] + [a] == [a] && [a] + [b] == [a, b] && [a, b] + [c] == [a, b, c];
  }

  lemma Cat4(a: seq<Piece>, b: seq<Piece>, c: seq<Piece>, d: seq<Piece>)
    ensures Cat([a, b, c, d]) == a + b + c + d
  {
    hide Cat;
    Cat3(a, b, c);
    CatSplit([a, b, c], d);
    assert [a, b, c] + [d] == [a, b, c, d];
  }

  lemma Cat5(a: seq<Piece>, b: seq<Piece>, c: seq<Piece>, d: seq<Piece>, e: seq<Piece>)
    ensures Cat([a, b, c, d, e]) == a + b + c + d + e
  {
    hide Cat;
    Cat4(a, b, c, d);
    CatSplit([a, b, c, d], e);
    assert [a, b, c, d] + [e] == [a, b, c, d, e];
  }

  lemma Cat6(a: seq<Piece>, b: seq<Piece>, c: seq<Piece>, d: seq<Piece>, e: seq<Piece>, f: seq<Piece>)
    ensures Cat([a, b, c, d, e, f]) == a + b + c + d + e + f
  {
    hide Cat;
    Cat5(a, b, c, d, e);
    CatSplit([a, b, c, d, e], f);
    assert [a, b, c, d, e] + [f] == [a, b, c, d, e, f];
  }

  lemma {:induction false} BalancedCat(parts: seq<seq<Piece>>)
    requires forall i | 0 <= i < |parts| :: Inline(parts[i]) || Balanced(parts[i])
    ensures Balanced(Cat(parts))
  {
    if parts == [] {
      BalancedInline([]);
    } else {
      BalancedCat(parts[..|parts| - 1]);
      BalancedConcat(Cat(parts[..|parts| - 1]), parts[|parts| - 1]);
    }
  }
}
