/** An abstract, read-only view of a filesystem: what `fs.readdirSync`,
    `fs.statSync` and `fs.existsSync` can observe of it. */
module FileTree {

  /** What `statSync` reports about a directory entry.
      - File: a regular file.
      - Dir: a directory whose listing (`readdirSync`) succeeds, in listing order.
      - Unlistable: `statSync` says directory, but `readdirSync` throws on it.
      - Unreadable: `statSync` throws on it (a dangling link, say). The same value
        stands for "no such entry": neither `existsSync` nor `statSync` can tell
        the two apart. */
  datatype Node =
    | File
    | Dir(entries: seq<Entry>)
    | Unlistable
    | Unreadable

  datatype Entry = Entry(name: string, node: Node)

  /** A path is the sequence of entry names walked from the filesystem root. */
  type Path = seq<string>

  /** The kind `statSync` reports for a node; ignores its contents. */
  datatype Kind = RegularFile | Directory | UnlistableDirectory | Missing

  function KindOf(n: Node): Kind
  {
    match n
    case File => RegularFile
    case Dir(_) => Directory
    case Unlistable => UnlistableDirectory
    case Unreadable => Missing
  }

  /** Does `statSync(...).isDirectory()` hold of this node? */
  predicate IsDirectory(n: Node)
  {
    n.Dir? || n.Unlistable?
  }

  function Names(entries: seq<Entry>): (r: seq<string>)
    ensures |r| == |entries|
    ensures forall k :: 0 <= k < |entries| ==> r[k] == entries[k].name
  {
    if entries == [] then [] else [entries[0].name] + Names(entries[1..])
  }

  /** The index of the first entry called `name`, or `|entries|` if there is none. */
  function Find(entries: seq<Entry>, name: string): (i: nat)
    ensures i <= |entries|
    ensures i < |entries| ==> entries[i].name == name
    ensures forall j :: 0 <= j < i ==> entries[j].name != name
  {
    if entries == [] then 0
    else if entries[0].name == name then 0
    else 1 + Find(entries[1..], name)
  }

  /** The node reached by walking `p` from `n`; `Unreadable` when no entry is there. */
  function NodeAt(n: Node, p: Path): Node
    decreases |p|
  {
    if p == [] then n
    else match n
      case Dir(entries) =>
        var i := Find(entries, p[0]);
        if i < |entries| then NodeAt(entries[i].node, p[1..]) else Unreadable
      case _ => Unreadable
  }

  /** `n` with the node at path `p` replaced by `x`; `n` itself when `p` leads nowhere. */
  function ReplaceAt(n: Node, p: Path, x: Node): Node
    decreases |p|
  {
    if p == [] then x
    else match n
      case Dir(entries) =>
        var i := Find(entries, p[0]);
        if i < |entries| then Dir(entries[i := Entry(p[0], ReplaceAt(entries[i].node, p[1..], x))])
        else n
      case _ => n
  }

  /** Does `p` name an entry, whatever `statSync` would say of it? (`NodeAt` cannot
      tell an unreadable entry from a missing one; this can.) */
  predicate Present(n: Node, p: Path)
    decreases |p|
  {
    if p == [] then true
    else match n
      case Dir(entries) =>
        var i := Find(entries, p[0]);
        i < |entries| && Present(entries[i].node, p[1..])
      case _ => false
  }

  /** No component of `p` is an ignored name. */
  ghost predicate AvoidsIgnored(p: Path, ignore: seq<string>)
  {
    forall k :: 0 <= k < |p| ==> p[k] !in ignore
  }

  /** No directory lists the same name twice: a property of every real filesystem. */
  ghost predicate DistinctNames(entries: seq<Entry>)
  {
    forall i, j :: 0 <= i < j < |entries| ==> entries[i].name != entries[j].name
  }

  ghost predicate WellFormed(n: Node)
    decreases n
  {
    match n
    case Dir(entries) =>
      && DistinctNames(entries)
      && forall k | 0 <= k < |entries| :: WellFormed(entries[k].node)
    case _ => true
  }

  /** Find only looks at names. */
  lemma {:induction false} FindSameNames(a: seq<Entry>, b: seq<Entry>, name: string)
    requires Names(a) == Names(b)
    ensures Find(a, name) == Find(b, name)
  {
    if a != [] {
      assert a[0].name == Names(a)[0] == Names(b)[0] == b[0].name;
      assert Names(a[1..]) == Names(a)[1..] by {
        assert forall k :: 0 <= k < |a| - 1 ==> Names(a[1..])[k] == Names(a)[1..][k];
      }
      assert Names(b[1..]) == Names(b)[1..] by {
        assert forall k :: 0 <= k < |b| - 1 ==> Names(b[1..])[k] == Names(b)[1..][k];
      }
      FindSameNames(a[1..], b[1..], name);
    }
  }

  /** In a directory without repeated names, looking up an entry's name finds that entry. */
  lemma FindDistinct(entries: seq<Entry>, k: nat)
    requires DistinctNames(entries) && k < |entries|
    ensures Find(entries, entries[k].name) == k
  {
  }

  /** Walking `p + q` is walking `p`, then `q`. */
  lemma {:induction false} NodeAtAppend(n: Node, p: Path, q: Path)
    ensures NodeAt(n, p + q) == NodeAt(NodeAt(n, p), q)
  {
    if p == [] {
      assert p + q == q;
    } else {
      assert (p + q)[0] == p[0] && (p + q)[1..] == p[1..] + q;
      match n
      case Dir(entries) =>
        var i := Find(entries, p[0]);
        if i < |entries| {
          NodeAtAppend(entries[i].node, p[1..], q);
        } else {
          assert NodeAt(n, p) == Unreadable;
        }
      case _ =>
        assert NodeAt(n, p) == Unreadable;
    }
  }

  /** Replacing strictly below a node keeps its kind and its listing's names. */
  lemma ReplaceKeepsShape(n: Node, p: Path, x: Node)
    requires p != []
    ensures KindOf(ReplaceAt(n, p, x)) == KindOf(n)
    ensures n.Dir? ==> Names(ReplaceAt(n, p, x).entries) == Names(n.entries)
  {
    if n.Dir? {
      var i := Find(n.entries, p[0]);
      if i < |n.entries| {
        var e := n.entries[i := Entry(p[0], ReplaceAt(n.entries[i].node, p[1..], x))];
        assert forall k :: 0 <= k < |e| ==> Names(e)[k] == Names(n.entries)[k];
      }
    }
  }

  /** One step of `ReplaceAt` on a directory: the first entry called `p[0]` gets the
      replacement, and every name finds the same position as before. */
  lemma ReplaceAtStep(n: Node, p: Path, x: Node)
    requires p != [] && n.Dir? && Find(n.entries, p[0]) < |n.entries|
    ensures var i := Find(n.entries, p[0]);
            ReplaceAt(n, p, x) == Dir(n.entries[i := Entry(p[0], ReplaceAt(n.entries[i].node, p[1..], x))])
    ensures forall name :: Find(ReplaceAt(n, p, x).entries, name) == Find(n.entries, name)
  {
    var i := Find(n.entries, p[0]);
    var updated := n.entries[i := Entry(p[0], ReplaceAt(n.entries[i].node, p[1..], x))];
    assert Names(updated) == Names(n.entries) by {
      assert forall k :: 0 <= k < |updated| ==> Names(updated)[k] == Names(n.entries)[k];
    }
    forall name ensures Find(updated, name) == Find(n.entries, name) {
      FindSameNames(updated, n.entries, name);
    }
  }

  /** Along `p`, the nodes are the old ones with the replacement made further down. */
  lemma {:induction false} ReplaceAtAlong(n: Node, p: Path, x: Node, q: Path)
    requires NodeAt(n, p) != Unreadable && q <= p
    ensures NodeAt(ReplaceAt(n, p, x), q) == ReplaceAt(NodeAt(n, q), p[|q|..], x)
  {
    if q == [] {
      assert p[|q|..] == p;
    } else {
      var i := Find(n.entries, p[0]);
      ReplaceAtStep(n, p, x);
      var child := ReplaceAt(n.entries[i].node, p[1..], x);
      assert q[0] == p[0];
      assert NodeAt(ReplaceAt(n, p, x), q) == NodeAt(child, q[1..]);
      assert NodeAt(n, q) == NodeAt(n.entries[i].node, q[1..]);
      assert p[|q|..] == p[1..][|q[1..]|..];
      ReplaceAtAlong(n.entries[i].node, p[1..], x, q[1..]);
    }
  }

  /** Below `p`, the nodes are those of the replacement. */
  lemma {:induction false} ReplaceAtBelow(n: Node, p: Path, x: Node, q: Path)
    requires NodeAt(n, p) != Unreadable && p <= q
    ensures NodeAt(ReplaceAt(n, p, x), q) == NodeAt(x, q[|p|..])
  {
    if p == [] {
      assert q[|p|..] == q;
    } else {
      var i := Find(n.entries, p[0]);
      ReplaceAtStep(n, p, x);
      var child := ReplaceAt(n.entries[i].node, p[1..], x);
      assert q[0] == p[0];
      assert NodeAt(ReplaceAt(n, p, x), q) == NodeAt(child, q[1..]);
      assert q[|p|..] == q[1..][|p[1..]|..];
      ReplaceAtBelow(n.entries[i].node, p[1..], x, q[1..]);
    }
  }

  /** Off the path `p`, nothing changes. */
  lemma {:induction false} ReplaceAtElsewhere(n: Node, p: Path, x: Node, q: Path)
    requires NodeAt(n, p) != Unreadable && !(q <= p) && !(p <= q)
    ensures NodeAt(ReplaceAt(n, p, x), q) == NodeAt(n, q)
  {
    var i := Find(n.entries, p[0]);
    ReplaceAtStep(n, p, x);
    var updated := ReplaceAt(n, p, x).entries;
    var j := Find(n.entries, q[0]);
    if q[0] == p[0] {
      assert NodeAt(ReplaceAt(n, p, x), q) == NodeAt(ReplaceAt(n.entries[i].node, p[1..], x), q[1..]);
      assert !(q[1..] <= p[1..]) && !(p[1..] <= q[1..]);
      ReplaceAtElsewhere(n.entries[i].node, p[1..], x, q[1..]);
    } else if j < |n.entries| {
      assert j != i && updated[j] == n.entries[j];
    }
  }

  /** `fs.existsSync(p)`: an entry is there and can be stat'd. */
  predicate Exists(n: Node, p: Path)
  {
    !NodeAt(n, p).Unreadable?
  }

  /** Is an entry called `name` listed by the folder at `dir`, readable or not? */
  predicate Listed(n: Node, dir: Path, name: string)
  {
    NodeAt(n, dir).Dir? && Find(NodeAt(n, dir).entries, name) < |NodeAt(n, dir).entries|
  }

  /** Appending an entry does not move any name found before it. */
  lemma {:induction false} FindAppend(entries: seq<Entry>, e: Entry, name: string)
    ensures Find(entries + [e], name)
         == if Find(entries, name) < |entries| then Find(entries, name)
            else if e.name == name then |entries| else |entries| + 1
  {
    if entries != [] {
      assert (entries + [e])[1..] == entries[1..] + [e];
      FindAppend(entries[1..], e, name);
    }
  }

  /** Removing entry `i` shifts the names found after it down by one. */
  lemma FindRemove(entries: seq<Entry>, i: nat, name: string)
    requires i < |entries| && entries[i].name != name
    ensures var j := Find(entries, name);
            Find(entries[..i] + entries[i + 1..], name) == if j < i then j else j - 1
  {
    var s := entries[..i] + entries[i + 1..];
    var j := Find(entries, name);
    assert forall k :: 0 <= k < i ==> s[k] == entries[k];
    assert forall k :: i <= k < |s| ==> s[k] == entries[k + 1];
    if j < i {
      assert s[j] == entries[j];
    } else if j < |entries| {
      assert s[j - 1] == entries[j];
    }
  }

  /** Replacing a node by a well-formed one keeps the tree well formed. */
  lemma {:induction false} ReplaceWellFormed(n: Node, p: Path, x: Node)
    requires WellFormed(n) && WellFormed(x)
    ensures WellFormed(ReplaceAt(n, p, x))
  {
    if p != [] && n.Dir? {
      var i := Find(n.entries, p[0]);
      if i < |n.entries| {
        ReplaceWellFormed(n.entries[i].node, p[1..], x);
        ReplaceAtStep(n, p, x);
      }
    }
  }
}
