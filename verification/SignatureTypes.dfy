/** Signatures of nested types: whatever tuples a type is built from, printing it and
    splitting the text gives its parts back. */
module SignatureTypes {
  import opened Results
  import opened SignatureParser

  /** A type is a name or a tuple of types. */
  datatype Type = Named(name: string) | Tuple(parts: seq<Type>)

  /** A name is not empty and holds no bracket and no comma. */
  ghost predicate PlainName(s: string) {
    s != "" && forall k :: 0 <= k < |s| ==> s[k] != '(' && s[k] != ')' && s[k] != ','
  }

  ghost predicate WellNamed(t: Type)
    decreases t
  {
    match t
    case Named(name) => PlainName(name)
    case Tuple(parts) => AllWellNamed(parts)
  }

  ghost predicate AllWellNamed(ts: seq<Type>)
    decreases ts
  {
    ts == [] || (AllWellNamed(ts[..|ts| - 1]) && WellNamed(ts[|ts| - 1]))
  }

  /** A tuple is printed in brackets, its parts between commas. */
  ghost function Print(t: Type): string
    decreases t
  {
    match t
    case Named(name) => name
    case Tuple(parts) => "(" + Join(PrintAll(parts)) + ")"
  }

  ghost function PrintAll(ts: seq<Type>): seq<string>
    decreases ts
  {
    if ts == [] then [] else PrintAll(ts[..|ts| - 1]) + [Print(ts[|ts| - 1])]
  }

  /** Text that closes what it opens and holds no comma outside brackets. */
  ghost predicate Piece(s: string) {
    s != "" && Balanced(s) && Unsplit(s)
  }

  ghost predicate AllPieces(ss: seq<string>) {
    forall k :: 0 <= k < |ss| ==> Piece(ss[k])
  }

  lemma {:induction false} NameIsPiece(s: string)
    requires forall k :: 0 <= k < |s| ==> s[k] != '(' && s[k] != ')' && s[k] != ','
    ensures Balanced(s) && Unsplit(s)
  {
    if s == "" {
      NothingUnsplit();
      NothingRead();
    } else {
      var init, c := s[..|s| - 1], s[|s| - 1];
      assert s == init + [c];
      NameIsPiece(init);
      PrefixSnoc(init, c);
      DepthSnoc(init, c);
      UnsplitSnoc(init, c);
    }
  }

  /** Inside an open bracket no comma is outside brackets. */
  lemma {:induction false} BracketedUnsplit(t: string)
    requires NeverNegative(t)
    ensures Unsplit("(" + t) && Depth("(" + t) == Depth(t) + 1
  {
    if t == "" {
      assert "(" + t == "" + ['('];
      NothingUnsplit();
      UnsplitSnoc("", '(');
      DepthSnoc("", '(');
    } else {
      var init, c := t[..|t| - 1], t[|t| - 1];
      assert "(" + t == "(" + init + [c] && t == init + [c];
      BracketedUnsplit(init);
      DepthSnoc("(" + init, c);
      DepthSnoc(init, c);
      UnsplitSnoc("(" + init, c);
      PrefixSnoc(init, c);
    }
  }

  lemma {:induction false} BracketedIsPiece(t: string)
    requires Balanced(t)
    ensures Piece("(" + t + ")")
  {
    BracketedUnsplit(t);
    UnsplitSnoc("(" + t, ')');
    NothingRead();
    ReadGroup("", t);
    assert "" + ['('] + t + [')'] == "(" + t + ")" == "(" + t + [')'];
  }

  lemma {:induction false} PrintedIsPiece(t: Type)
    requires WellNamed(t)
    ensures Piece(Print(t))
    decreases t
  {
    match t
    case Named(name) => NameIsPiece(name);
    case Tuple(parts) =>
      PrintedArePieces(parts);
      JoinBalanced(PrintAll(parts));
      BracketedIsPiece(Join(PrintAll(parts)));
  }

  lemma {:induction false} PrintedArePieces(ts: seq<Type>)
    requires AllWellNamed(ts)
    ensures AllPieces(PrintAll(ts))
    decreases ts
  {
    if ts != [] {
      PrintedArePieces(ts[..|ts| - 1]);
      PrintedIsPiece(ts[|ts| - 1]);
    }
  }

  /** Splitting the text of a tuple gives the texts of its parts, at any depth of nesting. */
  lemma {:induction false} TupleParses(ts: seq<Type>)
    requires AllWellNamed(ts)
    ensures Types(Print(Tuple(ts))) == PrintAll(ts)
  {
    PrintedArePieces(ts);
    PiecesParse(PrintAll(ts));
  }

  lemma {:induction false} PiecesParse(ss: seq<string>)
    requires AllPieces(ss)
    ensures Types("(" + Join(ss) + ")") == ss
  {
    hide Balanced, Unsplit, Join, Types;
    PrintedListParses(ss);
    if ss != [] {
      assert Pieces(ss) by { PiecesAre(ss); }
      assert ss[0] != "";
    }
  }

  lemma {:induction false} PiecesAre(ss: seq<string>)
    requires AllPieces(ss) && ss != []
    ensures Pieces(ss)
  {
  }

  /** A printed signature splits into the name with its input types, and the texts of the
      input and output types, however nested they are. */
  lemma {:induction false} TypedSignatureParses(name: string, ins: seq<Type>, outs: seq<Type>)
    requires PlainName(name) && AllWellNamed(ins) && AllWellNamed(outs)
    ensures Parsed(name + Print(Tuple(ins)) + Print(Tuple(outs)))
         == Success((name + Print(Tuple(ins)), PrintAll(ins), PrintAll(outs)))
  {
    PrintedArePieces(ins);
    PrintedArePieces(outs);
    hide Balanced, Types, Parsed, Join, PrintAll, Depth, NeverNegative, AllWellNamed;
    var a, b := Join(PrintAll(ins)), Join(PrintAll(outs));
    PiecesJoin(PrintAll(ins));
    PiecesJoin(PrintAll(outs));
    TupleParses(ins);
    TupleParses(outs);
    Bracketed(a);
    Bracketed(b);
    SignatureOfGroups(name, a, b);
    Regrouped(name, a, b);
  }

  lemma {:induction false} PiecesJoin(ss: seq<string>)
    requires AllPieces(ss)
    ensures Balanced(Join(ss))
  {
    hide Balanced;
    JoinBalanced(ss);
  }

  lemma {:induction false} Bracketed(t: string)
    ensures "(" + t + ")" == ['('] + t + [')']
  {
  }

  lemma {:induction false} Regrouped(name: string, a: string, b: string)
    ensures name + ['('] + a + [')'] == name + ("(" + a + ")")
    ensures name + ['('] + a + [')'] + ['('] + b + [')'] == name + ("(" + a + ")") + ("(" + b + ")")
  {
  }
}
