/** The textual form of AST nodes (`print` / `operator<<`). Atoms, negations, branch
    initialisations, type casts, clauses and execution plans follow their classes'
    `print`; variables, constants, records, functors, aggregates, binary constraints
    and execution orders are printed by classes that are not part of this model, and
    are given a conventional rendering here. */
module Printing {
  import opened Util
  import opened QualifiedNames
  import opened Ast

  function ArgumentText(a: Argument): string
    decreases a
  {
    match a
    case Variable(name) => name
    case UnnamedVariable => "_"
    case NumberConstant(n) => IntToString(n)
    case StringConstant(s) => "\"" + s + "\""
    case NilConstant => "nil"
    case TypeCast(v, t) => "as(" + ArgumentText(v) + "," + ToString(t) + ")"
    case RecordInit(xs) => "[" + Join(ArgumentTexts(xs), ",") + "]"
    case BranchInit(c, xs) => "$" + c + "(" + Join(ArgumentTexts(xs), ", ") + ")"
    case Functor(f, xs) => f + "(" + Join(ArgumentTexts(xs), ",") + ")"
    case Aggregator(op, target, body) =>
      op + (match target case None => "" case Some(t) => " " + ArgumentText(t))
      + " : { " + Join(LiteralTexts(body), ", ") + " }"
  }

  /** The texts of a list of arguments, one per argument. */
  function ArgumentTexts(xs: seq<Argument>): (r: seq<string>)
    ensures |r| == |xs|
    ensures forall i :: 0 <= i < |xs| ==> r[i] == ArgumentText(xs[i])
    decreases xs
  {
    if |xs| == 0 then [] else [ArgumentText(xs[0])] + ArgumentTexts(xs[1..])
  }

  function LiteralText(l: Literal): string
    decreases l
  {
    match l
    case AtomLiteral(a) => AtomText(a)
    case NegationLiteral(n) => NegationText(n)
    case BinaryConstraint(op, x, y) => ArgumentText(x) + " " + op + " " + ArgumentText(y)
  }

  function LiteralTexts(xs: seq<Literal>): (r: seq<string>)
    ensures |r| == |xs|
    ensures forall i :: 0 <= i < |xs| ==> r[i] == LiteralText(xs[i])
    decreases xs
  {
    if |xs| == 0 then [] else [LiteralText(xs[0])] + LiteralTexts(xs[1..])
  }

  /** `AstAtom::print`: the name, then the arguments separated by "," in parentheses. */
  function AtomText(a: Atom): string
    decreases a
  {
    ToString(a.name) + "(" + Join(ArgumentTexts(a.args), ",") + ")"
  }

  /** `AstNegation::print`: "!" followed by the atom. */
  function NegationText(n: Negation): string
    decreases n
  {
    "!" + AtomText(n.atom)
  }

  function OrderText(o: ExecutionOrder): string
  {
    "(" + Join(NatTexts(o.order), ",") + ")"
  }

  function NatTexts(xs: seq<nat>): (r: seq<string>)
    ensures |r| == |xs|
    ensures forall i :: 0 <= i < |xs| ==> r[i] == NatToString(xs[i])
  {
    if |xs| == 0 then [] else [NatToString(xs[0])] + NatTexts(xs[1..])
  }

  function EntryTexts(xs: seq<PlanEntry>): (r: seq<string>)
    ensures |r| == |xs|
    ensures forall i :: 0 <= i < |xs| ==> r[i] == IntToString(xs[i].version) + ":" + OrderText(xs[i].order)
  {
    if |xs| == 0 then [] else [IntToString(xs[0].version) + ":" + OrderText(xs[0].order)] + EntryTexts(xs[1..])
  }

  /** `AstExecutionPlan::print`: nothing for a plan without orders, otherwise " .plan "
      followed by the `version:order` entries separated by ", ". */
  function PlanText(p: ExecutionPlan): string
  {
    if |p.entries| == 0 then "" else " .plan " + Join(EntryTexts(p.entries), ", ")
  }

  /** `AstClause::print`: the head; " :- \n   " and the body literals separated by
      ",\n   " when there is a body; "."; then the plan when there is one. */
  function ClauseText(c: Clause): string
  {
    AtomText(c.head)
    + (if |c.body| == 0 then "" else " :- \n   " + Join(LiteralTexts(c.body), ",\n   "))
    + "."
    + PlanSuffix(c.plan)
  }

  /** The plan part of a clause's text: nothing without a plan. */
  function PlanSuffix(plan: Option<ExecutionPlan>): string
  {
    match plan
    case None => ""
    case Some(p) => PlanText(p)
  }

  // ---- reading the texts back ----

  /** Reads back a text of the form `name(p1,...,pk)`: the name is what comes before
      the first "(", and the parts are what lies between that "(" and the final ")",
      split at ",". */
  function ParseCall(t: string): Option<(string, seq<string>)>
  {
    var name := Split(t, '(')[0];
    if |t| >= |name| + 2 && t[|name|] == '(' && t[|t| - 1] == ')' then
      Some((name, Split(t[|name| + 1..|t| - 1], ',')))
    else None
  }

  /** The text of `name` followed by the parenthesised `inner` reads back as `name` and
      the pieces of `inner`. */
  lemma ParseCallOf(name: string, inner: string)
    requires '(' !in name
    ensures ParseCall(name + "(" + inner + ")") == Some((name, Split(inner, ',')))
  {
    var t := name + "(" + inner + ")";
    assert t == name + ['('] + (inner + ")");
    SplitAt(name, '(', inner + ")");
    assert t[|name| + 1..|t| - 1] == inner;
  }

  /** An atom's text splits back into its name and the texts of its arguments, as long
      as the name holds no "(" and no argument text holds a ",". */
  lemma AtomTextRoundTrip(a: Atom)
    requires '(' !in ToString(a.name)
    requires forall i :: 0 <= i < |a.args| ==> ',' !in ArgumentText(a.args[i])
    ensures ParseCall(AtomText(a)) == Some((ToString(a.name), if |a.args| == 0 then [""] else ArgumentTexts(a.args)))
  {
    ParseCallOf(ToString(a.name), Join(ArgumentTexts(a.args), ","));
    if |a.args| > 0 {
      SplitJoin(ArgumentTexts(a.args), ',');
    }
  }

  /** A cast reads back as the call `as` of its value's text and its type's text. */
  lemma TypeCastRoundTrip(v: Argument, t: QualifiedName)
    requires ',' !in ArgumentText(v) && ',' !in ToString(t)
    ensures ParseCall(ArgumentText(TypeCast(v, t))) == Some(("as", [ArgumentText(v), ToString(t)]))
  {
    assert ArgumentText(TypeCast(v, t)) == "as" + "(" + ArgumentText(v) + "," + ToString(t) + ")";
    assert '(' !in "as" by {
      var w := "as";
      assert |w| == 2 && w[0] != '(' && w[1] != '(';
    }
    ParseCallOfTwo("as", ArgumentText(v), ToString(t));
  }

  lemma ParseCallOfTwo(name: string, x: string, y: string)
    requires '(' !in name && ',' !in x && ',' !in y
    ensures ParseCall(name + "(" + x + "," + y + ")") == Some((name, [x, y]))
  {
    var inner := x + "," + y;
    assert Join([x, y], ",") == inner;
    SplitJoin([x, y], ',');
    ParseCallOf(name, inner);
    assert name + "(" + x + "," + y + ")" == name + "(" + inner + ")";
  }

  /** The text of a positive atom is never that of a negation, as long as the atom's
      name does not itself begin with "!". */
  lemma NegationAtomDistinct(a: Atom, n: Negation)
    requires ToString(a.name) == "" || ToString(a.name)[0] != '!'
    ensures AtomText(a) != NegationText(n)
  {
    assert NegationText(n)[0] == '!';
    var t := AtomText(a);
    if ToString(a.name) == "" {
      assert t[0] == '(';
    } else {
      assert t[0] == ToString(a.name)[0];
    }
  }

  /** A branch initialisation without arguments still prints its parentheses: the
      comment on `BranchInit` says such a branch reads `$Constructor` in the input
      syntax, but its `print` emits `$Constructor()`. */
  lemma BranchInitWithoutArguments(c: string)
    ensures ArgumentText(BranchInit(c, [])) == "$" + c + "()"
  {
    assert ArgumentTexts([]) == [];
  }

  /** The lines of a rule's body: each literal indented by three spaces and followed by
      ",", except the last, which is followed by `tail`. */
  function BodyLines(xs: seq<string>, tail: string): (r: seq<string>)
    requires |xs| > 0
    ensures |r| == |xs|
  {
    if |xs| == 1 then ["   " + xs[0] + tail] else ["   " + xs[0] + ","] + BodyLines(xs[1..], tail)
  }

  lemma {:induction false} BodyLinesSplit(xs: seq<string>, tail: string)
    requires |xs| > 0
    requires forall i :: 0 <= i < |xs| ==> '\n' !in xs[i]
    requires '\n' !in tail
    ensures Split("   " + Join(xs, ",\n   ") + tail, '\n') == BodyLines(xs, tail)
  {
    if |xs| == 1 {
      SplitPlain("   " + xs[0] + tail, '\n');
    } else {
      var rest := "   " + Join(xs[1..], ",\n   ") + tail;
      assert "   " + Join(xs, ",\n   ") + tail == ("   " + xs[0] + ",") + ['\n'] + rest;
      SplitAt("   " + xs[0] + ",", '\n', rest);
      BodyLinesSplit(xs[1..], tail);
    }
  }

  /** No character outside the decimal digits and "-:()," occurs in a plan's entries. */
  predicate PlanFree(ch: char)
  {
    !('0' <= ch <= '9') && ch != '-' && ch != ':' && ch != '(' && ch != ')' && ch != ','
  }

  lemma {:induction false} JoinFree(xs: seq<string>, sep: string, ch: char)
    requires ch !in sep
    requires forall i :: 0 <= i < |xs| ==> ch !in xs[i]
    ensures ch !in Join(xs, sep)
  {
    if |xs| > 1 {
      JoinFree(xs[1..], sep, ch);
    }
  }

  lemma NatTextFree(n: nat, ch: char)
    requires PlanFree(ch)
    ensures ch !in NatToString(n)
  {
    var t := NatToString(n);
    forall i | 0 <= i < |t| ensures t[i] != ch {
      assert '0' <= t[i] <= '9';
    }
  }

  lemma EntryTextFree(e: PlanEntry, ch: char)
    requires PlanFree(ch)
    ensures ch !in IntToString(e.version) + ":" + OrderText(e.order)
  {
    var nats := NatTexts(e.order.order);
    forall j | 0 <= j < |nats| ensures ch !in nats[j] {
      NatTextFree(e.order.order[j], ch);
    }
    JoinFree(nats, ",", ch);
    var o := Join(nats, ",");
    assert OrderText(e.order) == "(" + o + ")";
    assert ch !in "(" + o + ")";
    var v := IntToString(e.version);
    if e.version < 0 {
      NatTextFree(-e.version, ch);
      assert v == "-" + NatToString(-e.version);
    } else {
      NatTextFree(e.version, ch);
    }
    assert ch !in v;
  }

  lemma EntryTextsFree(xs: seq<PlanEntry>, ch: char)
    requires PlanFree(ch)
    ensures forall i :: 0 <= i < |xs| ==> ch !in EntryTexts(xs)[i]
  {
    forall i | 0 <= i < |xs| ensures ch !in EntryTexts(xs)[i] {
      EntryTextFree(xs[i], ch);
    }
  }

  /** The words of a list of entries separated by ", ": each entry followed by ",",
      except the last. */
  function Words(xs: seq<string>): (r: seq<string>)
    requires |xs| > 0
    ensures |r| == |xs|
  {
    if |xs| == 1 then [xs[0]] else [xs[0] + ","] + Words(xs[1..])
  }

  lemma {:induction false} WordsSplit(xs: seq<string>)
    requires |xs| > 0
    requires forall i :: 0 <= i < |xs| ==> ' ' !in xs[i]
    ensures Split(Join(xs, ", "), ' ') == Words(xs)
  {
    if |xs| == 1 {
      SplitPlain(xs[0], ' ');
    } else {
      assert Join(xs, ", ") == (xs[0] + ",") + [' '] + Join(xs[1..], ", ");
      SplitAt(xs[0] + ",", ' ', Join(xs[1..], ", "));
      WordsSplit(xs[1..]);
    }
  }

  /** A plan prints as nothing exactly when it holds no orders; otherwise its text,
      split at spaces, is "", ".plan" and then the `version:order` entries, each but the
      last followed by ",". */
  lemma PlanTextWords(p: ExecutionPlan)
    ensures PlanText(p) == "" <==> |p.entries| == 0
    ensures |p.entries| > 0 ==> Split(PlanText(p), ' ') == ["", ".plan"] + Words(EntryTexts(p.entries))
  {
    if |p.entries| > 0 {
      EntryTextsFree(p.entries, ' ');
      PlanWords(EntryTexts(p.entries));
    }
  }

  lemma PlanWords(xs: seq<string>)
    requires |xs| > 0
    requires forall i :: 0 <= i < |xs| ==> ' ' !in xs[i]
    ensures Split(" .plan " + Join(xs, ", "), ' ') == ["", ".plan"] + Words(xs)
  {
    var j := Join(xs, ", ");
    PlanPrefixSplit(j);
    WordsSplit(xs);
  }

  /** The words of " .plan " followed by `j`. */
  lemma PlanPrefixSplit(j: string)
    ensures Split(" .plan " + j, ' ') == ["", ".plan"] + Split(j, ' ')
  {
    var rest := ".plan" + [' '] + j;
    assert " .plan " + j == [' '] + rest by {
      assert " .plan " == [' '] + ".plan" + [' '];
    }
    assert ([' '] + rest)[1..] == rest;
    KeywordSplit(j);
  }

  lemma KeywordSplit(j: string)
    ensures Split(".plan" + [' '] + j, ' ') == [".plan"] + Split(j, ' ')
  {
    assert ' ' !in ".plan" by {
      var w := ".plan";
      assert |w| == 5 && w[0] != ' ' && w[1] != ' ' && w[2] != ' ' && w[3] != ' ' && w[4] != ' ';
    }
    SplitAt(".plan", ' ', j);
  }

  /** A plan's text is on one line. */
  lemma PlanSuffixOneLine(plan: Option<ExecutionPlan>)
    ensures '\n' !in PlanSuffix(plan)
  {
    if plan.Some? && |plan.value.entries| > 0 {
      EntryTextsFree(plan.value.entries, '\n');
      JoinFree(EntryTexts(plan.value.entries), ", ", '\n');
      assert PlanText(plan.value) == " .plan " + Join(EntryTexts(plan.value.entries), ", ");
    }
  }

  /** A fact prints on one line as its head, ".", and its plan. A rule prints its head
      and " :- " on the first line, then one line per body literal in order, each
      indented by three spaces and ended by ",", except the last, which is ended by "."
      and the plan. This holds when no head or literal text spans lines. */
  lemma ClauseTextLines(c: Clause)
    requires '\n' !in AtomText(c.head)
    requires forall i :: 0 <= i < |c.body| ==> '\n' !in LiteralText(c.body[i])
    ensures |c.body| == 0 ==> Split(ClauseText(c), '\n') == [AtomText(c.head) + "." + PlanSuffix(c.plan)]
    ensures |c.body| > 0 ==>
      Split(ClauseText(c), '\n') == [AtomText(c.head) + " :- "] + BodyLines(LiteralTexts(c.body), "." + PlanSuffix(c.plan))
  {
    if |c.body| == 0 {
      FactTextLine(c);
    } else {
      RuleTextLines(c);
    }
  }

  lemma FactTextLine(c: Clause)
    requires '\n' !in AtomText(c.head)
    requires |c.body| == 0
    ensures Split(ClauseText(c), '\n') == [AtomText(c.head) + "." + PlanSuffix(c.plan)]
  {
    PlanSuffixOneLine(c.plan);
    OneLine(AtomText(c.head), PlanSuffix(c.plan));
    assert ClauseText(c) == AtomText(c.head) + "" + "." + PlanSuffix(c.plan);
    assert AtomText(c.head) + "" == AtomText(c.head);
  }

  lemma OneLine(h: string, ps: string)
    requires '\n' !in h && '\n' !in ps
    ensures Split(h + "." + ps, '\n') == [h + "." + ps]
  {
    assert '\n' !in h + "." + ps by {
      assert forall k :: 0 <= k < |h + "." + ps| ==> (h + "." + ps)[k] in h || (h + "." + ps)[k] == '.' || (h + "." + ps)[k] in ps;
    }
    SplitPlain(h + "." + ps, '\n');
  }

  lemma RuleTextLines(c: Clause)
    requires '\n' !in AtomText(c.head)
    requires forall i :: 0 <= i < |c.body| ==> '\n' !in LiteralText(c.body[i])
    requires |c.body| > 0
    ensures Split(ClauseText(c), '\n') ==
      [AtomText(c.head) + " :- "] + BodyLines(LiteralTexts(c.body), "." + PlanSuffix(c.plan))
  {
    PlanSuffixOneLine(c.plan);
    var lits := LiteralTexts(c.body);
    assert forall i :: 0 <= i < |lits| ==> '\n' !in lits[i];
    RuleLines(AtomText(c.head), lits, PlanSuffix(c.plan));
    assert ClauseText(c) == AtomText(c.head) + (" :- \n   " + Join(lits, ",\n   ")) + "." + PlanSuffix(c.plan);
    AppendAssociative(AtomText(c.head), " :- \n   ", Join(lits, ",\n   "));
  }

  lemma RuleLines(h: string, lits: seq<string>, ps: string)
    requires '\n' !in h && '\n' !in ps
    requires |lits| > 0
    requires forall i :: 0 <= i < |lits| ==> '\n' !in lits[i]
    ensures Split(h + " :- \n   " + Join(lits, ",\n   ") + "." + ps, '\n') == [h + " :- "] + BodyLines(lits, "." + ps)
  {
    var tail := "." + ps;
    assert '\n' !in tail by {
      assert forall k :: 0 <= k < |tail| ==> tail[k] == '.' || tail[k] in ps;
    }
    assert '\n' !in h + " :- " by {
      assert forall k :: 0 <= k < |h + " :- "| ==> (h + " :- ")[k] in h || (h + " :- ")[k] in " :- ";
    }
    var rest := "   " + Join(lits, ",\n   ") + tail;
    assert h + " :- \n   " + Join(lits, ",\n   ") + "." + ps == (h + " :- ") + ['\n'] + rest;
    SplitAt(h + " :- ", '\n', rest);
    BodyLinesSplit(lits, tail);
  }
}
