/**
 The fixed message template of the Twitter publisher, stated as functions.

 For each collect record the template writes its `Arc` label and ":\n", one
 line "• " + dst + "\n" per entry of its `Dst` map (the `-}}` of the inner
 `range` eats the newline that follows it), visited in ascending key order,
 and a closing "\n". Only destination values are written, never source keys.
 */
module Template {
  import opened Wrappers
  import opened KeyOrder

  /** The two fields of a wayback collect record that the template reads. */
  datatype Collect = Collect(arc: string, dst: map<string, string>)

  /** The prefix of every bullet line, and the bullet character it starts with. */
  const Bullet: string := "• "
  const BulletChar: char := '•'

  /** One bullet line per key of ks, in the order of ks. */
  ghost function Bullets(m: map<string, string>, ks: seq<string>): (r: string)
    requires forall k :: k in ks ==> k in m
  {
    if ks == [] then "" else Bullet + m[ks[0]] + "\n" + Bullets(m, ks[1..])
  }

  /** Taking the least remaining key writes its bullet first. */
  lemma BulletsLeast(written: string, m: map<string, string>, s: set<string>, k: string)
    requires s <= m.Keys && IsLeast(k, s)
    ensures written + Bullets(m, SortedOf(s)) == (written + Bullet + m[k] + "\n") + Bullets(m, SortedOf(s - {k}))
  {
    SortedOfLeast(s, k);
    BulletsAfter(written, m, k, SortedOf(s - {k}));
  }

  lemma BulletsAfter(written: string, m: map<string, string>, k: string, rest: seq<string>)
    requires k in m && forall x :: x in rest ==> x in m
    ensures written + Bullets(m, [k] + rest) == (written + Bullet + m[k] + "\n") + Bullets(m, rest)
  {
    BulletsCons(m, k, rest);
  }

  lemma BulletsCons(m: map<string, string>, k: string, rest: seq<string>)
    requires k in m && forall x :: x in rest ==> x in m
    ensures Bullets(m, [k] + rest) == Bullet + m[k] + "\n" + Bullets(m, rest)
  {
    assert ([k] + rest)[0] == k && ([k] + rest)[1..] == rest;
  }

  /** The text one record expands to. */
  ghost function Block(c: Collect): (r: string)
    ensures |r| >= |c.arc| + 3
    ensures r[..|c.arc| + 2] == c.arc + ":\n" && r[|r| - 1] == '\n'
  {
    var head := c.arc + ":\n";
    var line := head + Bullets(c.dst, SortedOf(c.dst.Keys));
    PrefixOfAppend(head, Bullets(c.dst, SortedOf(c.dst.Keys)));
    PrefixOfAppend(line, "\n");
    line + "\n"
  }

  lemma PrefixOfAppend(a: string, b: string)
    ensures (a + b)[..|a|] == a
  {
  }

  /**
   Executing the template on a sequence of possibly-nil records: None when
   execution fails, which happens exactly when some record is nil (the
   template then cannot evaluate `$.Arc`).
   */
  ghost function Execute(vars: seq<Option<Collect>>): (r: Option<string>)
    ensures r.None? <==> exists i :: 0 <= i < |vars| && vars[i].None?
    ensures r.Some? ==> |r.value| >= 3 * |vars|
  {
    if vars == [] then Some("")
    else match (vars[0], Execute(vars[1..]))
      case (Some(c), Some(t)) => Some(Block(c) + t)
      case _ => None
  }

  /**
   What Render returns: the executed text, or "" when execution fails. Every
   record writes at least its label line and a blank line, so the message is
   empty only when there are no records or some record is nil.
   */
  ghost function Message(vars: seq<Option<Collect>>): (r: string)
    ensures r == "" <==> vars == [] || exists i :: 0 <= i < |vars| && vars[i].None?
  {
    match Execute(vars)
    case Some(t) => t
    case None => ""
  }

  /** Rendering no records yields the empty string. */
  lemma MessageEmpty()
    ensures Message([]) == ""
  {
  }

  /** A single record renders as exactly its block. */
  lemma MessageSingle(c: Collect)
    ensures Execute([Some(c)]) == Some(Block(c))
    ensures Message([Some(c)]) == Block(c)
  {
    assert [Some(c)][1..] == [];
    assert Execute([Some(c)]) == Some(Block(c) + "");
    assert Block(c) + "" == Block(c);
  }

  /** Execution distributes over concatenation: blocks appear in input order. */
  lemma {:induction false} ExecuteAppend(a: seq<Option<Collect>>, b: seq<Option<Collect>>)
    ensures Execute(a + b) == match (Execute(a), Execute(b))
      case (Some(x), Some(y)) => Some(x + y)
      case _ => None
  {
    if a == [] {
      assert a + b == b;
      match Execute(b)
      case Some(y) => assert "" + y == y;
      case None =>
    } else {
      assert (a + b)[0] == a[0];
      assert (a + b)[1..] == a[1..] + b;
      ExecuteAppend(a[1..], b);
      match (a[0], Execute(a[1..]), Execute(b))
      case (Some(c), Some(x), Some(y)) => assert Block(c) + x + y == Block(c) + (x + y);
      case _ =>
    }
  }

  /** Extending a successfully executed prefix by a present record appends its block. */
  lemma ExecutePrefix(vars: seq<Option<Collect>>, i: nat, t: string)
    requires i < |vars| && vars[i].Some?
    requires Execute(vars[..i]) == Some(t)
    ensures Execute(vars[..i + 1]) == Some(t + Block(vars[i].value))
  {
    assert vars[..i + 1] == vars[..i] + [Some(vars[i].value)];
    MessageSingle(vars[i].value);
    ExecuteAppend(vars[..i], [Some(vars[i].value)]);
  }

  /**
   Rendering a ++ b is rendering a followed by rendering b, unless a nil
   record in either part makes the whole message empty.
   */
  lemma MessageAppend(a: seq<Option<Collect>>, b: seq<Option<Collect>>)
    ensures Message(a + b) ==
      if Execute(a).Some? && Execute(b).Some? then Message(a) + Message(b) else ""
  {
    ExecuteAppend(a, b);
  }

  /** A record without entries renders as its label, ":\n" and a blank line. */
  lemma BlockWithoutEntries(arc: string)
    ensures Block(Collect(arc, map[])) == arc + ":\n\n"
  {
    assert Collect(arc, map[]).dst.Keys == {};
  }

  /**
   The bullets of a block are those of any strictly ascending listing of its
   source keys: they are written in ascending key order.
   */
  lemma BlockInKeyOrder(c: Collect, ks: seq<string>)
    requires StrictlyAscending(ks)
    requires forall k :: k in ks <==> k in c.dst
    ensures Block(c) == c.arc + ":\n" + Bullets(c.dst, ks) + "\n"
  {
    SortedOfUnique(c.dst.Keys, ks);
  }

  /** Number of occurrences of ch in s. */
  function Occurrences(s: string, ch: char): (n: nat)
    ensures n <= |s|
    ensures n == 0 <==> ch !in s
  {
    if s == [] then 0
    else (if s[0] == ch then 1 else 0) + Occurrences(s[1..], ch)
  }

  lemma {:induction false} OccurrencesAppend(a: string, b: string, ch: char)
    ensures Occurrences(a + b, ch) == Occurrences(a, ch) + Occurrences(b, ch)
  {
    if a == [] {
      assert a + b == b;
    } else {
      assert (a + b)[0] == a[0];
      assert (a + b)[1..] == a[1..] + b;
      OccurrencesAppend(a[1..], b, ch);
    }
  }

  /** No label or destination of a present record contains the bullet character. */
  ghost predicate BulletFree(vars: seq<Option<Collect>>)
  {
    forall i :: 0 <= i < |vars| && vars[i].Some? ==>
      BulletChar !in vars[i].value.arc &&
      forall k :: k in vars[i].value.dst ==> BulletChar !in vars[i].value.dst[k]
  }

  /** Total number of Dst entries over the present records. */
  function Entries(vars: seq<Option<Collect>>): nat
  {
    if vars == [] then 0
    else (if vars[0].Some? then |vars[0].value.dst| else 0) + Entries(vars[1..])
  }

  lemma {:induction false} BulletsCount(m: map<string, string>, ks: seq<string>)
    requires forall k :: k in ks ==> k in m && BulletChar !in m[k]
    ensures Occurrences(Bullets(m, ks), BulletChar) == |ks|
  {
    if ks != [] {
      var line := Bullet + m[ks[0]] + "\n";
      OccurrencesAppend(line, Bullets(m, ks[1..]), BulletChar);
      OccurrencesAppend(Bullet + m[ks[0]], "\n", BulletChar);
      OccurrencesAppend(Bullet, m[ks[0]], BulletChar);
      BulletsCount(m, ks[1..]);
    }
  }

  lemma BlockCount(c: Collect)
    requires BulletChar !in c.arc
    requires forall k :: k in c.dst ==> BulletChar !in c.dst[k]
    ensures Occurrences(Block(c), BulletChar) == |c.dst|
  {
    var b := Bullets(c.dst, SortedOf(c.dst.Keys));
    BulletsCount(c.dst, SortedOf(c.dst.Keys));
    OccurrencesAppend(c.arc + ":\n" + b, "\n", BulletChar);
    OccurrencesAppend(c.arc + ":\n", b, BulletChar);
    OccurrencesAppend(c.arc, ":\n", BulletChar);
    assert |c.dst.Keys| == |c.dst|;
  }

  /**
   When no record is nil and no label or destination contains the bullet
   character, the message has one bullet per Dst entry, summed over all
   records.
   */
  lemma {:induction false} MessageBulletCount(vars: seq<Option<Collect>>)
    requires forall i :: 0 <= i < |vars| ==> vars[i].Some?
    requires BulletFree(vars)
    ensures Occurrences(Message(vars), BulletChar) == Entries(vars)
  {
    if vars != [] {
      assert vars == [vars[0]] + vars[1..];
      MessageBulletCount(vars[1..]);
      BlockCount(vars[0].value);
      OccurrencesAppend(Block(vars[0].value), Message(vars[1..]), BulletChar);
    }
  }

  /** One record with one entry. */
  lemma ExampleOneRecord()
    ensures Message([Some(Collect("IA", map["a" := "http://x"]))]) == "IA:\n• http://x\n\n"
  {
    var c := Collect("IA", map["a" := "http://x"]);
    assert c.dst.Keys == {"a"};
    assert SortedOf(c.dst.Keys) == ["a"];
    MessageSingle(c);
  }

  lemma BulletsTwo(m: map<string, string>, k1: string, k2: string)
    requires k1 in m && k2 in m
    ensures Bullets(m, [k1, k2]) == Bullet + m[k1] + "\n" + Bullet + m[k2] + "\n"
  {
    assert [k1, k2] == [k1] + [k2] && [k2] == [k2] + [];
    BulletsCons(m, k2, []);
    BulletsCons(m, k1, [k2]);
  }

  /** With two entries, the bullet of the smaller key comes first, whatever the map's insertion order. */
  lemma BlockTwoEntries(arc: string, k1: string, v1: string, k2: string, v2: string)
    requires LexLess(k1, k2)
    ensures Block(Collect(arc, map[k2 := v2, k1 := v1]))
         == arc + ":\n" + (Bullet + v1 + "\n" + Bullet + v2 + "\n") + "\n"
  {
    var m := map[k2 := v2, k1 := v1];
    var ks := [k1, k2];
    assert StrictlyAscending(ks);
    BlockInKeyOrder(Collect(arc, m), ks);
    BulletsTwo(m, k1, k2);
    assert m[k1] == v1 && m[k2] == v2;
  }

  lemma ExampleTwoEntries()
    ensures Block(Collect("IA", map["b" := "y", "a" := "x"]))
         == "IA:\n• x\n• y\n\n"
  {
    assert LexLess("a", "b");
    BlockTwoEntries("IA", "a", "x", "b", "y");
    assert "IA" + ":\n" + (Bullet + "x" + "\n" + Bullet + "y" + "\n") + "\n"
        == "IA:\n• x\n• y\n\n";
  }

  lemma ExecuteTwo(c: Collect, d: Collect)
    ensures Execute([Some(c), Some(d)]) == Some(Block(c) + Block(d))
  {
    MessageSingle(c);
    MessageSingle(d);
    assert [Some(c), Some(d)] == [Some(c)] + [Some(d)];
    ExecuteAppend([Some(c)], [Some(d)]);
  }

  /** Blocks come out in input order, each with its entries in key order. */
  lemma ExampleTwoRecords()
    ensures Message([Some(Collect("IA", map["b" := "y", "a" := "x"])),
                     Some(Collect("IS", map[]))])
         == "IA:\n• x\n• y\n\n" + "IS:\n\n"
  {
    var c := Collect("IA", map["b" := "y", "a" := "x"]);
    var d := Collect("IS", map[]);
    ExampleTwoEntries();
    BlockWithoutEntries("IS");
    ExecuteTwo(c, d);
    assert "IS" + ":\n\n" == "IS:\n\n";
  }
}
