/** Splitting a call signature such as f(a,(b,c))(d) into its name, input and output
    types, and printing the types back. */
module SignatureParser {
  import opened Results

  // ----- nesting -----

  function Step(c: char): int {
    if c == '(' then 1 else if c == ')' then -1 else 0
  }

  /** Open brackets less closed ones. */
  function Depth(t: string): int {
    if t == [] then 0 else Depth(t[..|t| - 1]) + Step(t[|t| - 1])
  }

  lemma {:induction false} DepthSnoc(t: string, c: char)
    ensures Depth(t + [c]) == Depth(t) + Step(c)
  {
    assert (t + [c])[..|t|] == t;
  }

  lemma {:induction false} DepthJoined(a: string, b: string)
    ensures Depth(a + b) == Depth(a) + Depth(b)
  {
    if b == [] {
      assert a + b == a;
    } else {
      DepthJoined(a, b[..|b| - 1]);
      assert (a + b)[..|a + b| - 1] == a + b[..|b| - 1];
    }
  }

  // ----- the types of one group -----

  /** What lies between the first and the last character. */
  function Inner(s: string): string {
    if |s| < 2 then "" else s[1..|s| - 1]
  }

  /** The pieces cut off so far, and the piece being read. */
  function Cut(t: string): (seq<string>, string) {
    if t == [] then ([], "")
    else
      var (parts, part) := Cut(t[..|t| - 1]);
      var c := t[|t| - 1];
      if c == ',' && Depth(t[..|t| - 1]) == 0 then (parts + [part], "") else (parts, part + [c])
  }

  /** The text between the commas at depth zero. */
  function Split(t: string): (parts: seq<string>)
    ensures parts != []
  {
    Cut(t).0 + [Cut(t).1]
  }

  function Types(s: string): seq<string> {
    if s == "()" then [] else Split(Inner(s))
  }

  method ParseTypestring(typestring: string) returns (parts: seq<string>)
    ensures parts == Types(typestring)
  {
    if typestring == "()" { return []; }
    var inner := Inner(typestring);
    parts := [];
    var part := "";
    var insideTuples := 0;
    for i := 0 to |inner|
      invariant (parts, part) == Cut(inner[..i]) && insideTuples == Depth(inner[..i])
    {
      var character := inner[i];
      CutSnoc(inner[..i], character);
      DepthSnoc(inner[..i], character);
      assert inner[..i + 1] == inner[..i] + [character];
      if character == '(' {
        insideTuples := insideTuples + 1;
      } else if character == ')' {
        insideTuples := insideTuples - 1;
      } else if character == ',' && insideTuples == 0 {
        parts := parts + [part];
        part := "";
        continue;
      }
      part := part + [character];
    }
    assert inner[..|inner|] == inner;
    parts := parts + [part];
  }

  lemma {:induction false} CutSnoc(t: string, c: char)
    ensures Cut(t + [c])
         == if c == ',' && Depth(t) == 0 then (Cut(t).0 + [Cut(t).1], "") else (Cut(t).0, Cut(t).1 + [c])
  {
    assert (t + [c])[..|t|] == t;
  }

  // ----- printing undoes splitting -----

  function Join(ts: seq<string>): string {
    if ts == [] then ""
    else if |ts| == 1 then ts[0]
    else Join(ts[..|ts| - 1]) + [','] + ts[|ts| - 1]
  }

  lemma {:induction false} JoinSnoc(ts: seq<string>, t: string)
    ensures Join(ts + [t]) == if ts == [] then t else Join(ts) + [','] + t
  {
    var all := ts + [t];
    if ts != [] { assert all[..|all| - 1] == ts; }
  }

  /** Whatever was split, joining gives it back. */
  lemma {:induction false} JoinOfSplit(t: string)
    ensures Join(Split(t)) == t
  {
    if t == [] {
      assert Split(t) == [""];
    } else {
      var init, c := t[..|t| - 1], t[|t| - 1];
      assert t == init + [c];
      JoinOfSplit(init);
      CutSnoc(init, c);
      var (parts, part) := Cut(init);
      JoinSnoc(parts, part);
      if c == ',' && Depth(init) == 0 {
        JoinSnoc(parts + [part], "");
      } else {
        JoinSnoc(parts, part + [c]);
      }
    }
  }

  /** For every string at all, the types joined by commas are the string without its ends. */
  lemma {:induction false} PrintedTypes(s: string)
    ensures Join(Types(s)) == Inner(s)
  {
    if s != "()" { JoinOfSplit(Inner(s)); }
  }

  // ----- splitting undoes printing, exactly when the pieces allow it -----

  /** No comma lies at depth zero. */
  ghost predicate Unsplit(t: string) {
    forall k :: 0 <= k < |t| && t[k] == ',' ==> Depth(t[..k]) != 0
  }

  /** Pieces that hold no comma at depth zero and close what they open. */
  ghost predicate Closed(ts: seq<string>) {
    forall i :: 0 <= i < |ts| ==> Unsplit(ts[i]) && Depth(ts[i]) == 0
  }

  /** What a list must satisfy to survive printing: no piece holds a comma at depth
      zero, and every piece but the last closes what it opens. */
  ghost predicate Pieces(ts: seq<string>)
    requires ts != []
  {
    Closed(ts[..|ts| - 1]) && Unsplit(ts[|ts| - 1])
  }

  lemma {:induction false} ClosedSnoc(ts: seq<string>, t: string)
    ensures Closed(ts + [t]) <==> Closed(ts) && Unsplit(t) && Depth(t) == 0
    ensures Pieces(ts + [t]) <==> Closed(ts) && Unsplit(t)
  {
    var all := ts + [t];
    assert all[|ts|] == t && all[..|ts|] == ts && all[..|all| - 1] == ts;
    assert forall i :: 0 <= i < |ts| ==> all[i] == ts[i];
  }

  lemma {:induction false} UnsplitSnoc(t: string, c: char)
    ensures Unsplit(t + [c]) <==> Unsplit(t) && !(c == ',' && Depth(t) == 0)
  {
    var all := t + [c];
    assert forall k :: 0 <= k < |t| ==> all[k] == t[k] && all[..k] == t[..k];
    assert all[|t|] == c && all[..|t|] == t;
  }

  /** Splitting always yields such a list, and its last piece ends at the depth of the whole. */
  lemma {:induction false} SplitGivesPieces(t: string)
    ensures Closed(Cut(t).0) && Unsplit(Cut(t).1) && Depth(Cut(t).1) == Depth(t)
  {
    hide Depth, Unsplit, Closed, Cut;
    if t == [] {
      NothingUnsplit();
    } else {
      var init, c := t[..|t| - 1], t[|t| - 1];
      assert t == init + [c];
      SplitGivesPieces(init);
      OneMoreCharacter(init, c, Cut(init).0, Cut(init).1);
    }
  }

  lemma {:induction false} OneMoreCharacter(t: string, c: char, parts: seq<string>, part: string)
    requires Cut(t) == (parts, part) && Closed(parts) && Unsplit(part) && Depth(part) == Depth(t)
    ensures Closed(Cut(t + [c]).0) && Unsplit(Cut(t + [c]).1) && Depth(Cut(t + [c]).1) == Depth(t + [c])
  {
    hide Depth, Unsplit, Closed, Cut;
    CutSnoc(t, c);
    DepthSnoc(t, c);
    if c == ',' && Depth(t) == 0 {
      NothingUnsplit();
      ClosedSnoc(parts, part);
    } else {
      DepthSnoc(part, c);
      UnsplitSnoc(part, c);
    }
  }

  lemma {:induction false} NothingUnsplit()
    ensures Unsplit("") && Depth("") == 0 && Closed([]) && Cut("") == ([], "")
  {
  }

  /** Reading a printed list whose pieces survive. */
  lemma {:induction false} CutOfJoin(ts: seq<string>, t: string)
    requires Closed(ts) && Unsplit(t)
    ensures Cut(Join(ts + [t])) == (ts, t) && Depth(Join(ts + [t])) == Depth(t)
  {
    hide Depth, Unsplit, Closed, Cut;
    JoinSnoc(ts, t);
    NothingUnsplit();
    if ts == [] {
      CutOnward("", t);
      assert "" + t == t;
    } else {
      var init, last := ts[..|ts| - 1], ts[|ts| - 1];
      assert init + [last] == ts;
      ClosedSnoc(init, last);
      CutOfJoin(init, last);
      CutAfterComma(Join(ts), init, last, t);
    }
  }

  lemma {:induction false} CutAfterComma(before: string, parts: seq<string>, part: string, t: string)
    requires Cut(before) == (parts, part) && Depth(before) == 0 && Unsplit(t)
    ensures Cut(before + [','] + t) == (parts + [part], t) && Depth(before + [','] + t) == Depth(t)
  {
    hide Depth, Unsplit, Cut;
    CutSnoc(before, ',');
    DepthSnoc(before, ',');
    CutOnward(before + [','], t);
    assert "" + t == t;
  }

  /** Text without a comma at depth zero, read from depth zero, only lengthens the last piece. */
  lemma {:induction false} CutOnward(a: string, t: string)
    requires Depth(a) == 0 && Unsplit(t)
    ensures Cut(a + t) == (Cut(a).0, Cut(a).1 + t) && Depth(a + t) == Depth(t)
  {
    DepthJoined(a, t);
    if t == [] {
      assert a + t == a && Cut(a).1 + t == Cut(a).1;
    } else {
      var init, c := t[..|t| - 1], t[|t| - 1];
      assert t == init + [c] && a + t == a + init + [c];
      UnsplitSnoc(init, c);
      CutOnward(a, init);
      CutSnoc(a + init, c);
      assert Cut(a).1 + init + [c] == Cut(a).1 + t;
    }
  }

  lemma {:induction false} SplitOfJoin(ts: seq<string>)
    requires ts != []
    ensures Split(Join(ts)) == ts <==> Pieces(ts)
  {
    var init, last := ts[..|ts| - 1], ts[|ts| - 1];
    assert init + [last] == ts;
    if Pieces(ts) { CutOfJoin(init, last); }
    var (parts, part) := Cut(Join(ts));
    SplitGivesPieces(Join(ts));
    hide Depth, Unsplit, Closed, Cut;
    ClosedSnoc(parts, part);
  }

  lemma {:induction false} JoinEmpty(ts: seq<string>)
    requires ts != []
    ensures Join(ts) == "" <==> ts == [""]
  {
  }

  /** A printed list of types parses back to itself exactly when it is empty, or its
      pieces survive printing and it is not the single empty text. */
  lemma {:induction false} PrintedListParses(ts: seq<string>)
    ensures Types("(" + Join(ts) + ")") == ts <==> ts == [] || (ts != [""] && Pieces(ts))
  {
    var s := "(" + Join(ts) + ")";
    if ts == [] {
      assert s == "()";
    } else {
      SplitOfJoin(ts);
      JoinEmpty(ts);
      assert Inner(s) == Join(ts);
      if s == "()" { assert Join(ts) == Inner("()") == ""; }
    }
  }

  // ----- the whole signature -----

  /** At no point have more brackets been closed than opened. */
  predicate NeverNegative(t: string) {
    t == [] || (NeverNegative(t[..|t| - 1]) && 0 <= Depth(t))
  }

  /** The position of the first opening bracket, or the length if there is none. */
  function FirstOpen(t: string): (o: nat)
    ensures o <= |t|
  {
    if t == [] then 0
    else
      var o := FirstOpen(t[..|t| - 1]);
      if o < |t| - 1 || t[|t| - 1] == '(' then o else |t|
  }

  /** The positions at which an outermost group ends. */
  function Ends(t: string): (es: seq<nat>)
    ensures forall i :: 0 <= i < |es| ==> es[i] < |t|
    ensures forall i, j :: 0 <= i < j < |es| ==> es[i] < es[j]
  {
    if t == [] then []
    else Ends(t[..|t| - 1]) + (if t[|t| - 1] == ')' && Depth(t) == 0 then [|t| - 1] else [])
  }

  lemma {:induction false} PrefixSnoc(t: string, c: char)
    ensures NeverNegative(t + [c]) <==> NeverNegative(t) && 0 <= Depth(t) + Step(c)
    ensures FirstOpen(t + [c]) == if FirstOpen(t) < |t| || c == '(' then FirstOpen(t) else |t| + 1
    ensures Ends(t + [c]) == Ends(t) + (if c == ')' && Depth(t) + Step(c) == 0 then [|t|] else [])
  {
    assert (t + [c])[..|t|] == t;
    DepthSnoc(t, c);
  }

  /** Without an opening bracket no group ends; a group ends only after one has opened. */
  lemma {:induction false} OpensBeforeItEnds(t: string)
    ensures FirstOpen(t) == |t| ==> Ends(t) == [] && Depth(t) <= 0
    ensures Ends(t) != [] ==> FirstOpen(t) < Ends(t)[0]
  {
    hide Depth, FirstOpen, Ends, Step;
    if t == [] {
      NothingOpens();
    } else {
      var init, c := t[..|t| - 1], t[|t| - 1];
      assert t == init + [c];
      OpensBeforeItEnds(init);
      OpensSnoc(init, c);
    }
  }

  lemma {:induction false} NothingOpens()
    ensures FirstOpen([]) == 0 && Ends([]) == [] && Depth([]) == 0
  {
  }

  lemma {:induction false} OpensSnoc(t: string, c: char)
    requires FirstOpen(t) == |t| ==> Ends(t) == [] && Depth(t) <= 0
    requires Ends(t) != [] ==> FirstOpen(t) < Ends(t)[0]
    ensures FirstOpen(t + [c]) == |t| + 1 ==> Ends(t + [c]) == [] && Depth(t + [c]) <= 0
    ensures Ends(t + [c]) != [] ==> FirstOpen(t + [c]) < Ends(t + [c])[0]
  {
    hide Depth, FirstOpen, Ends;
    PrefixSnoc(t, c);
    DepthSnoc(t, c);
  }

  /** What a signature parses to: the text up to the end of its first outermost group,
      the types of that group, and the types of the second. */
  function Parsed(s: string): Result<(string, seq<string>, seq<string>)> {
    if !NeverNegative(s) then Failure(PopFromEmptyStack)
    else if |Ends(s)| < 2 then Failure(MissingPart)
    else
      var o, e, f := FirstOpen(s), Ends(s)[0], Ends(s)[1];
      OpensBeforeItEnds(s);
      Success((s[..e + 1], Types(s[o..e + 1]), Types(s[e + 1..f + 1])))
  }

  /** The parts list after reading t. */
  ghost predicate PartsOf(t: string, parts: seq<string>, start: nat) {
    var o, es := FirstOpen(t), Ends(t);
    if o == |t| then parts == [] && start == 0
    else
      && |parts| == |es| + 1 && parts[0] == t[..o]
      && (es == [] ==> start == o)
      && (es != [] ==> o < es[0] && parts[1] == t[o..es[0] + 1] && start == es[|es| - 1] + 1)
      && (2 <= |es| ==> parts[2] == t[es[0] + 1..es[1] + 1])
  }

  lemma {:induction false} PartsStay(t: string, c: char, parts: seq<string>, start: nat)
    requires PartsOf(t, parts, start)
    requires FirstOpen(t + [c]) == (if FirstOpen(t) < |t| then FirstOpen(t) else |t| + 1) && Ends(t + [c]) == Ends(t)
    ensures PartsOf(t + [c], parts, start)
  {
    hide FirstOpen, Ends;
    var o, es := FirstOpen(t), Ends(t);
    if o < |t| {
      SameSlice(t, c, 0, o);
      if es != [] { SameSlice(t, c, o, es[0] + 1); }
      if 2 <= |es| { SameSlice(t, c, es[0] + 1, es[1] + 1); }
    }
  }

  lemma {:induction false} SameSlice(t: string, c: char, i: nat, j: nat)
    requires i <= j <= |t|
    ensures (t + [c])[i..j] == t[i..j] && (t + [c])[..j] == t[..j]
  {
  }

  lemma {:induction false} PartsBegin(t: string, parts: seq<string>, start: nat)
    requires PartsOf(t, parts, start) && FirstOpen(t) == |t|
    requires FirstOpen(t + ['(']) == |t| && Ends(t + ['(']) == []
    ensures parts == [] && start == 0 && PartsOf(t + ['('], [t[start..]], |t|)
  {
    hide FirstOpen, Ends;
    SameSlice(t, '(', 0, |t|);
  }

  lemma {:induction false} PartsEnd(t: string, parts: seq<string>, start: nat)
    requires PartsOf(t, parts, start) && FirstOpen(t) < |t|
    requires FirstOpen(t + [')']) == FirstOpen(t) && Ends(t + [')']) == Ends(t) + [|t|]
    ensures start <= |t| && PartsOf(t + [')'], parts + [(t + [')'])[start..]], |t| + 1)
  {
    hide FirstOpen, Ends;
    var o, es := FirstOpen(t), Ends(t);
    SameSlice(t, ')', 0, o);
    if es != [] { SameSlice(t, ')', o, es[0] + 1); }
    if 2 <= |es| { SameSlice(t, ')', es[0] + 1, es[1] + 1); }
  }

  lemma {:induction false} NonEmptyParts(t: string, parts: seq<string>, start: nat)
    requires PartsOf(t, parts, start)
    ensures parts == [] <==> FirstOpen(t) == |t|
  {
  }

  /** One more character, as the loop handles it. */
  lemma {:induction false} PartsSnoc(t: string, c: char, parts: seq<string>, start: nat)
    requires PartsOf(t, parts, start)
    ensures parts == [] <==> FirstOpen(t) == |t|
    ensures c == '(' && parts == [] ==> start == 0 && PartsOf(t + [c], [t], |t|)
    ensures c == ')' && Depth(t) == 1 ==> start <= |t| && PartsOf(t + [c], parts + [(t + [c])[start..]], |t| + 1)
    ensures !(c == '(' && parts == []) && !(c == ')' && Depth(t) == 1) ==> PartsOf(t + [c], parts, start)
  {
    hide FirstOpen, Ends, Depth;
    PrefixSnoc(t, c);
    OpensBeforeItEnds(t);
    NonEmptyParts(t, parts, start);
    hide PartsOf;
    if c == '(' && FirstOpen(t) == |t| {
      assert t[0..] == t;
      PartsBegin(t, parts, start);
    } else if c == ')' && Depth(t) == 1 {
      PartsEnd(t, parts, start);
    } else {
      PartsStay(t, c, parts, start);
    }
  }

  method ParseSignature(signature: string) returns (r: Result<(string, seq<string>, seq<string>)>)
    ensures r == Parsed(signature)
  {
    hide Depth, NeverNegative, FirstOpen, Ends, PartsOf, Types;
    var parts: seq<string>, stack: string, start: nat := [], [], 0;
    NothingRead();
    assert signature[..0] == [];
    for end := 0 to |signature|
      invariant NeverNegative(signature[..end]) && |stack| == Depth(signature[..end])
      invariant PartsOf(signature[..end], parts, start) && start <= end
    {
      var character := signature[end];
      ghost var before := signature[..end];
      assert signature[..end + 1] == before + [character];
      PrefixSnoc(before, character);
      DepthSnoc(before, character);
      PartsSnoc(before, character, parts, start);
      if character == '(' {
        stack := stack + [character];
        if parts == [] {
          assert signature[start..end] == before;
          parts := parts + [signature[start..end]];
          assert parts == [before];
          start := end;
        }
      }
      if character == ')' {
        if stack == [] {
          NegativeStays(signature, end + 1);
          return Failure(PopFromEmptyStack);
        }
        stack := stack[..|stack| - 1];
        if stack == [] {
          assert signature[start..end + 1] == (before + [character])[start..];
          parts := parts + [signature[start..end + 1]];
          start := end + 1;
        }
      }
    }
    assert signature[..|signature|] == signature;
    PartsAre(signature, parts, start);
    if |parts| < 3 { return Failure(MissingPart); }
    var function_ := parts[0] + parts[1];
    var inputTypes := ParseTypestring(parts[1]);
    var outputTypes := ParseTypestring(parts[2]);
    r := Success((function_, inputTypes, outputTypes));
  }

  lemma {:induction false} NothingRead()
    ensures NeverNegative([]) && Depth([]) == 0 && PartsOf([], [], 0)
  {
  }

  lemma {:induction false} NegativeStays(s: string, k: nat)
    requires k <= |s| && !NeverNegative(s[..k])
    ensures !NeverNegative(s)
    decreases |s| - k
  {
    if k == |s| {
      assert s[..k] == s;
    } else {
      assert s[..k + 1][..k] == s[..k];
      NegativeStays(s, k + 1);
    }
  }

  lemma {:induction false} PartsAre(s: string, parts: seq<string>, start: nat)
    requires NeverNegative(s) && PartsOf(s, parts, start)
    ensures |parts| < 3 <==> |Ends(s)| < 2
    ensures 3 <= |parts| ==> Parsed(s) == Success((parts[0] + parts[1], Types(parts[1]), Types(parts[2])))
  {
    OpensBeforeItEnds(s);
    if 3 <= |parts| {
      var o, e := FirstOpen(s), Ends(s)[0];
      assert s[..o] + s[o..e + 1] == s[..e + 1];
    }
  }

  // ----- parsing undoes printing a signature -----

  /** The recursion says what its name promises. */
  lemma {:induction false} NeverNegativeMeans(t: string)
    ensures NeverNegative(t) <==> forall k :: 0 <= k <= |t| ==> 0 <= Depth(t[..k])
  {
    if t == [] {
      assert t[..0] == [];
    } else {
      var init := t[..|t| - 1];
      NeverNegativeMeans(init);
      assert forall k :: 0 <= k <= |init| ==> t[..k] == init[..k];
      assert t[..|t|] == t;
    }
  }

  ghost predicate Balanced(t: string) {
    NeverNegative(t) && Depth(t) == 0
  }

  ghost predicate NoBrackets(t: string) {
    forall k :: 0 <= k < |t| ==> t[k] != '(' && t[k] != ')'
  }

  lemma {:induction false} ReadName(name: string)
    requires NoBrackets(name)
    ensures Balanced(name) && Ends(name) == [] && FirstOpen(name) == |name|
  {
    if name != [] {
      var init, c := name[..|name| - 1], name[|name| - 1];
      assert name == init + [c];
      ReadName(init);
      PrefixSnoc(init, c);
      DepthSnoc(init, c);
    }
  }

  /** Reading on from depth zero into an opened bracket: no group ends there. */
  lemma {:induction false} ReadInside(a: string, t: string)
    requires Balanced(a) && NeverNegative(t)
    ensures var u := a + ['('] + t;
            && NeverNegative(u) && Depth(u) == Depth(t) + 1 && Ends(u) == Ends(a)
            && FirstOpen(u) == FirstOpen(a)
  {
    hide Depth, FirstOpen, Ends;
    if t == [] {
      assert a + ['('] + t == a + ['('];
      PrefixSnoc(a, '(');
      DepthSnoc(a, '(');
      NothingOpens();
    } else {
      var init, c := t[..|t| - 1], t[|t| - 1];
      assert t == init + [c] && a + ['('] + t == a + ['('] + init + [c];
      PrefixSnoc(init, c);
      DepthSnoc(init, c);
      ReadInside(a, init);
      PrefixSnoc(a + ['('] + init, c);
      DepthSnoc(a + ['('] + init, c);
    }
  }

  /** One outermost group: it ends where its bracket closes, whatever is nested in it. */
  lemma {:induction false} ReadGroup(a: string, t: string)
    requires Balanced(a) && Balanced(t)
    ensures var u := a + ['('] + t + [')'];
            Balanced(u) && Ends(u) == Ends(a) + [|u| - 1] && FirstOpen(u) == FirstOpen(a)
  {
    hide Depth, FirstOpen, Ends, NeverNegative;
    ReadInside(a, t);
    PrefixSnoc(a + ['('] + t, ')');
    DepthSnoc(a + ['('] + t, ')');
  }

  /** A name and two groups are cut apart at the outermost brackets, at any depth of nesting. */
  lemma {:induction false} SignatureOfGroups(name: string, a: string, b: string)
    requires NoBrackets(name) && Balanced(a) && Balanced(b)
    ensures Parsed(name + ['('] + a + [')'] + ['('] + b + [')'])
         == Success((name + ['('] + a + [')'], Types(['('] + a + [')']), Types(['('] + b + [')'])))
  {
    hide Depth, FirstOpen, Ends, NeverNegative, Types;
    ReadName(name);
    ReadGroup(name, a);
    var first := name + ['('] + a + [')'];
    ReadGroup(first, b);
    var s := first + ['('] + b + [')'];
    assert s[..|first|] == first;
    assert s[|name|..|first|] == ['('] + a + [')'];
    assert s[|first|..|s|] == ['('] + b + [')'];
  }

  /** Types that can be printed in a list: each closes what it opens, and none holds a
      comma at depth zero. */
  ghost predicate Printable(ts: seq<string>) {
    ts != [""] && forall i :: 0 <= i < |ts| ==> Balanced(ts[i]) && Unsplit(ts[i])
  }

  lemma {:induction false} BalancedJoined(a: string, b: string)
    requires Balanced(a) && Balanced(b)
    ensures Balanced(a + b)
  {
    DepthJoined(a, b);
    NeverNegativeJoined(a, b);
  }

  lemma {:induction false} NeverNegativeJoined(a: string, b: string)
    requires Balanced(a) && NeverNegative(b)
    ensures NeverNegative(a + b)
  {
    if b == [] {
      assert a + b == a;
    } else {
      NeverNegativeJoined(a, b[..|b| - 1]);
      assert (a + b)[..|a + b| - 1] == a + b[..|b| - 1];
      DepthJoined(a, b);
    }
  }

  lemma {:induction false} JoinBalanced(ts: seq<string>)
    requires forall i :: 0 <= i < |ts| ==> Balanced(ts[i])
    ensures Balanced(Join(ts))
  {
    if |ts| > 1 {
      var init, t := ts[..|ts| - 1], ts[|ts| - 1];
      assert forall i :: 0 <= i < |init| ==> init[i] == ts[i];
      JoinBalanced(init);
      CommaBalanced();
      hide Balanced, Join;
      BalancedJoined(Join(init), [',']);
      BalancedJoined(Join(init) + [','], t);
      JoinSnoc(init, t);
      assert init + [t] == ts;
    }
  }

  lemma {:induction false} CommaBalanced()
    ensures Balanced([','])
  {
    assert [','][..0] == [];
  }

  /** Printing a name with its input and output types and parsing the text gives the
      three back. */
  lemma {:induction false} PrintedSignatureParses(name: string, ins: seq<string>, outs: seq<string>)
    requires NoBrackets(name) && Printable(ins) && Printable(outs)
    ensures var printed := name + ['('] + Join(ins) + [')'];
            Parsed(printed + ['('] + Join(outs) + [')']) == Success((printed, ins, outs))
  {
    JoinBalanced(ins);
    JoinBalanced(outs);
    PrintableParses(ins);
    PrintableParses(outs);
    hide Balanced, Join, Types, Parsed;
    SignatureOfGroups(name, Join(ins), Join(outs));
  }

  lemma {:induction false} PrintableParses(ts: seq<string>)
    requires Printable(ts)
    ensures Types(['('] + Join(ts) + [')']) == ts
  {
    PrintedListParses(ts);
    if ts != [] { assert Pieces(ts); }
    assert "(" + Join(ts) + ")" == ['('] + Join(ts) + [')'];
  }
}
