/** The printer of the configuration language (libdm-config.c). */
module ConfigPrinter {
  import opened ConfigTree
  import opened Decimal
  import opened Quoting

  const MAX_INDENT: nat := 32

  /** One less than the buffer of _line_append. */
  const LINE_PIECE: nat := 4095

  function Indent(level: nat): string {
    seq(if level < MAX_INDENT then level else MAX_INDENT, _ => '\t')
  }

  function InQuotes(s: string): string {
    "\"" + Quoted(s, '"', '\\', true) + "\""
  }

  predicate NeedsQuotes(key: string) {
    '#' in key || '"' in key || '!' in key
  }

  function KeyText(key: string): string {
    if NeedsQuotes(key) then InQuotes(key) else key
  }

  /** "%d" */
  function Integer(i: int): string {
    if i < 0 then "-" + Natural(-i) else Natural(i)
  }

  /** Floats are not modelled: "%f" rounds. */
  function ValueText(v: Value): string
    requires !v.Float?
  {
    if v.Int? then Integer(v.i) else InQuotes(v.s)
  }

  predicate NoFloats(vs: seq<Value>) {
    forall v <- vs :: !v.Float?
  }

  function ElementsText(vs: seq<Value>): string
    requires NoFloats(vs)
  {
    if vs == [] then "" else ValueText(vs[0]) + (if |vs| > 1 then ", " else "") + ElementsText(vs[1..])
  }

  function ValuesText(vs: seq<Value>): string
    requires NoFloats(vs)
  {
    if |vs| == 1 then ValueText(vs[0]) else "[" + ElementsText(vs) + "]"
  }

  predicate NoFloatNodes(ns: seq<Node>) {
    forall n <- ns :: (n.v.Some? ==> NoFloats(n.v.value)) && NoFloatNodes(n.child)
  }

  /** The lines of the first k siblings. */
  function Lines(ns: seq<Node>, k: nat, level: nat): seq<string>
    requires k <= |ns| && NoFloatNodes(ns)
    decreases ns, k, 1
  {
    if k == 0 then [] else Lines(ns, k - 1, level) + NodeLines(ns[k - 1], level)
  }

  function NodeLines(n: Node, level: nat): seq<string>
    requires (n.v.Some? ==> NoFloats(n.v.value)) && NoFloatNodes(n.child)
    decreases n, 0
  {
    var head := Indent(level) + KeyText(n.key);
    if n.v.Some? then [head + "=" + ValuesText(n.v.value)]
    else [head + " {"] + Lines(n.child, |n.child|, level + 1) + [Indent(level) + "}"]
  }

  /** No piece of a line is cut off. */
  predicate Fits(ns: seq<Node>, level: nat)
    requires NoFloatNodes(ns)
    decreases ns
  {
    forall n <- ns :: NodeFits(n, level)
  }

  predicate NodeFits(n: Node, level: nat)
    requires (n.v.Some? ==> NoFloats(n.v.value)) && NoFloatNodes(n.child)
    decreases n
  {
    && |Indent(level) + KeyText(n.key)| < LINE_PIECE
    && (if n.v.Some? then forall v <- n.v.value :: |ValueText(v)| < LINE_PIECE else Fits(n.child, level + 1))
  }

  /** struct config_output */
  class Output {
    var lines: seq<string>
    var line: string

    constructor ()
      ensures lines == []
    {
      lines, line := [], "";
    }

    /** _line_append; a piece of exactly the limit loses its last character. */
    method LineAppend(piece: string) returns (ok: bool)
      modifies this`line
      ensures ok <==> |piece| <= LINE_PIECE
      ensures |piece| < LINE_PIECE ==> line == old(line) + piece
      ensures |piece| == LINE_PIECE ==> line == old(line) + piece[..LINE_PIECE - 1]
    {
      if |piece| > LINE_PIECE {
        return false;
      }
      line := line + if |piece| == LINE_PIECE then piece[..LINE_PIECE - 1] else piece;
      ok := true;
    }

    /** _line_end */
    method LineEnd()
      modifies this
      ensures lines == old(lines) + [old(line)]
    {
      lines := lines + [line];
    }

    /** The values of one node, as in the body of _write_config. */
    method WriteValues(vs: seq<Value>) returns (ok: bool)
      requires NoFloats(vs)
      modifies this`line
      ensures (forall v <- vs :: |ValueText(v)| < LINE_PIECE) ==> ok && line == old(line) + ValuesText(vs)
    {
      hide ValueText;
      if |vs| == 1 {
        ok := LineAppend(ValueText(vs[0]));
        return;
      }
      ok := LineAppend("[");
      ghost var start := line;
      ghost var fits := forall v <- vs :: |ValueText(v)| < LINE_PIECE;
      for i := 0 to |vs|
        invariant fits ==> start + ElementsText(vs) == line + ElementsText(vs[i..])
      {
        assert vs[i] in vs && vs[i..][1..] == vs[i + 1..] && NoFloats(vs[i..]);
        ok := LineAppend(ValueText(vs[i]));
        if !ok {
          return;
        }
        if i + 1 < |vs| {
          ok := LineAppend(", ");
        }
      }
      assert ElementsText(vs[|vs|..]) == "" && line + "" == line;
      assert start + ElementsText(vs) + "]" == old(line) + ("[" + ElementsText(vs) + "]");
      ok := LineAppend("]");
    }

    /** _write_config; the result for the children is not looked at. */
    method WriteConfig(ns: seq<Node>, level: nat) returns (ok: bool)
      requires NoFloatNodes(ns)
      modifies this
      ensures Fits(ns, level) ==> ok && lines == old(lines) + Lines(ns, |ns|, level)
      decreases ns
    {
      hide KeyText, ValuesText, Indent, NodeFits;
      ghost var fits := Fits(ns, level);
      ok := true;
      for i := 0 to |ns|
        invariant fits ==> ok && lines == old(lines) + Lines(ns, i, level)
      {
        var n := ns[i];
        assert n in ns;
        ok := WriteOne(n, level);
        if !ok {
          return;
        }
      }
    }

    method WriteOne(n: Node, level: nat) returns (ok: bool)
      requires (n.v.Some? ==> NoFloats(n.v.value)) && NoFloatNodes(n.child)
      modifies this
      ensures NodeFits(n, level) ==> ok && lines == old(lines) + NodeLines(n, level)
      decreases n, 0
    {
      hide KeyText, ValuesText;
      line := "";
      ok := LineAppend(Indent(level) + KeyText(n.key));
      if !ok {
        return;
      }
      assert NodeFits(n, level) ==> line == Indent(level) + KeyText(n.key);
      if n.v.None? {
        ok := LineAppend(" {");
        LineEnd();
        var ignored := WriteConfig(n.child, level + 1);
        line := "";
        ok := LineAppend(Indent(level) + "}");
        assert line == Indent(level) + "}";
      } else {
        ok := LineAppend("=");
        ok := WriteValues(n.v.value);
        if !ok {
          return;
        }
      }
      LineEnd();
    }
  }
}
