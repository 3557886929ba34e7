/**
 Object names and buffer bindings of libgl (libgl/object.c, glBindBuffer.c,
 glDeleteBuffers.c, buffer.c): a trie over the four bytes of a name, the
 allocator of names, and the binding points of a context. Pointers are keys of
 maps; the driver's answers are parameters.
 */
module GlNames {
  import opened LinkedLists

  const NAMES := 0x1_0000_0000

  /** A GLuint. */
  type Name = n: int | 0 <= n < NAMES

  /** When a name is tried by the allocator: from 1 on, and 0 when the counter has wrapped around. */
  function Rank(c: Name): nat { if c == 0 then NAMES - 1 else c - 1 }

  /** The k-th candidate of the allocator. */
  function Candidate(k: nat): Name { (k + 1) % NAMES }

  type Byte = b: int | 0 <= b < 256

  /** DDIGL_Object: memset to 0 makes it free. */
  datatype Object = Free | Reserved | BufferObj(asBuffer: Ptr) | VaoObj(asVao: Ptr)

  /** DDIGL_ObjNode: pointers to nodes, or in the last level to objects. */
  type TrieNode = seq<Option<Ptr>>

  datatype Trie = Trie(root: Ptr, nodes: map<Ptr, TrieNode>, objs: map<Ptr, Object>, next: Ptr)

  // ---- The bytes of a name ----

  /** The first l bytes of a name, most significant first, as a number. */
  function Prefix(name: Name, l: nat): nat
    requires l <= 4
  {
    match l
    case 0 => 0
    case 1 => name / 0x100_0000
    case 2 => name / 0x1_0000
    case 3 => name / 0x100
    case _ => name
  }

  /** vals.bytes[i] after the bytes of the name have been swapped. */
  function ByteOf(name: Name, i: nat): Byte
    requires i < 4
  {
    Prefix(name, i + 1) % 256
  }

  lemma NextPrefix(name: Name, l: nat)
    requires l < 4
    ensures Prefix(name, l + 1) == Prefix(name, l) * 256 + ByteOf(name, l)
  {
  }

  // ---- The trie ----

  /** Which names go through a node, and the name of an object. Nothing in the program depends on it. */
  datatype Index = Index(level: map<Ptr, nat>, prefix: map<Ptr, nat>, owner: map<Ptr, nat>)

  /** What an entry points to is of the next level and carries one byte more. */
  ghost predicate LinkOk(t: Trie, x: Index, p: Ptr, b: nat) {
    && p in t.nodes && b < |t.nodes[p]| && p in x.level && p in x.prefix
    && (t.nodes[p][b].Some? ==>
          var q := t.nodes[p][b].value;
          if x.level[p] < 3 then
            q in t.nodes && q in x.level && q in x.prefix
            && x.level[q] == x.level[p] + 1 && x.prefix[q] == x.prefix[p] * 256 + b
          else q in t.objs && q in x.owner && x.owner[q] == x.prefix[p] * 256 + b)
  }

  ghost predicate TrieOk(t: Trie, x: Index) {
    && t.root in t.nodes && x.level.Keys == t.nodes.Keys == x.prefix.Keys && x.owner.Keys == t.objs.Keys
    && x.level[t.root] == 0 && x.prefix[t.root] == 0
    && (forall p :: p in t.nodes ==> |t.nodes[p]| == 256 && p < t.next && x.level[p] <= 3)
    && (forall o :: o in t.objs ==> o < t.next)
    && (forall p, b :: p in t.nodes && 0 <= b < 256 ==> LinkOk(t, x, p, b))
  }

  function Entry(t: Trie, p: Ptr, b: Byte): Option<Ptr> {
    if p in t.nodes && b < |t.nodes[p]| then t.nodes[p][b] else None
  }

  /** The node that the first l bytes of a name lead to. */
  function NodeAt(t: Trie, name: Name, l: nat): Option<Ptr>
    requires l <= 3
  {
    if l == 0 then Some(t.root)
    else
      match NodeAt(t, name, l - 1)
      case None => None
      case Some(p) => Entry(t, p, ByteOf(name, l - 1))
  }

  /** The object of a name, if it has been asked for before. */
  function Find(t: Trie, name: Name): Option<Ptr> {
    match NodeAt(t, name, 3)
    case None => None
    case Some(p) => Entry(t, p, ByteOf(name, 3))
  }

  /** The map that the trie implements: a name never asked for is free. */
  function At(t: Trie, name: Name): Object {
    match Find(t, name)
    case None => Free
    case Some(o) => if o in t.objs then t.objs[o] else Free
  }

  lemma {:induction false} NodeAtIs(t: Trie, x: Index, name: Name, l: nat)
    requires TrieOk(t, x) && l <= 3
    ensures NodeAt(t, name, l).Some? ==>
      var p := NodeAt(t, name, l).value;
      p in t.nodes && x.level[p] == l && x.prefix[p] == Prefix(name, l)
  {
    if l > 0 {
      NodeAtIs(t, x, name, l - 1);
      NextPrefix(name, l - 1);
      if NodeAt(t, name, l - 1).Some? {
        assert LinkOk(t, x, NodeAt(t, name, l - 1).value, ByteOf(name, l - 1));
      }
    }
  }

  lemma FindIs(t: Trie, x: Index, name: Name)
    requires TrieOk(t, x)
    ensures Find(t, name).Some? ==> Find(t, name).value in t.objs && x.owner[Find(t, name).value] == name
  {
    NodeAtIs(t, x, name, 3);
    NextPrefix(name, 3);
    if NodeAt(t, name, 3).Some? {
      assert LinkOk(t, x, NodeAt(t, name, 3).value, ByteOf(name, 3));
    }
  }

  /** Two names have the same object exactly if they are the same name. */
  lemma SameObjectSameName(t: Trie, x: Index, a: Name, b: Name)
    requires TrieOk(t, x) && Find(t, a).Some? && Find(t, b).Some?
    ensures Find(t, a) == Find(t, b) <==> a == b
  {
    FindIs(t, x, a);
    FindIs(t, x, b);
  }

  // ---- What changes when a node or an object is added ----

  function EmptyNode(): (n: TrieNode)
    ensures |n| == 256 && forall b :: 0 <= b < 256 ==> n[b] == None
  {
    seq(256, _ => None)
  }

  function AddNode(t: Trie, p: Ptr, b: Byte): Trie
    requires p in t.nodes && b < |t.nodes[p]|
  {
    t.(nodes := t.nodes[t.next := EmptyNode()][p := t.nodes[p][b := Some(t.next)]], next := t.next + 1)
  }

  function IndexNode(t: Trie, x: Index, p: Ptr, b: Byte): Index
    requires p in x.level && p in x.prefix
  {
    x.(level := x.level[t.next := x.level[p] + 1], prefix := x.prefix[t.next := x.prefix[p] * 256 + b])
  }

  function AddObject(t: Trie, p: Ptr, b: Byte): Trie
    requires p in t.nodes && b < |t.nodes[p]|
  {
    t.(nodes := t.nodes[p := t.nodes[p][b := Some(t.next)]], objs := t.objs[t.next := Free], next := t.next + 1)
  }

  function IndexObject(t: Trie, x: Index, p: Ptr, b: Byte): Index
    requires p in x.prefix
  {
    x.(owner := x.owner[t.next := x.prefix[p] * 256 + b])
  }

  lemma AddNodeOk(t: Trie, x: Index, p: Ptr, b: Byte)
    requires TrieOk(t, x) && p in t.nodes && x.level[p] < 3 && t.nodes[p][b] == None
    ensures TrieOk(AddNode(t, p, b), IndexNode(t, x, p, b))
  {
    var u, y := AddNode(t, p, b), IndexNode(t, x, p, b);
    forall q, c | q in u.nodes && 0 <= c < 256 ensures LinkOk(u, y, q, c) {
      if q != t.next { assert LinkOk(t, x, q, c); }
    }
  }

  lemma AddObjectOk(t: Trie, x: Index, p: Ptr, b: Byte)
    requires TrieOk(t, x) && p in t.nodes && x.level[p] == 3 && t.nodes[p][b] == None
    ensures TrieOk(AddObject(t, p, b), IndexObject(t, x, p, b))
  {
    var u, y := AddObject(t, p, b), IndexObject(t, x, p, b);
    forall q, c | q in u.nodes && 0 <= c < 256 ensures LinkOk(u, y, q, c) {
      assert LinkOk(t, x, q, c);
    }
  }

  lemma {:induction false} AddNodeWalk(t: Trie, x: Index, p: Ptr, b: Byte, name: Name, l: nat)
    requires TrieOk(t, x) && p in t.nodes && x.level[p] < 3 && t.nodes[p][b] == None && l <= 3
    ensures var u := AddNode(t, p, b);
      if NodeAt(t, name, l).Some? then NodeAt(u, name, l) == NodeAt(t, name, l)
      else NodeAt(u, name, l) == None || NodeAt(u, name, l) == Some(t.next)
  {
    if l > 0 {
      AddNodeWalk(t, x, p, b, name, l - 1);
      NodeAtIs(t, x, name, l - 1);
    }
  }

  /** A new node disturbs no name. */
  lemma AddNodeKeeps(t: Trie, x: Index, p: Ptr, b: Byte, name: Name)
    requires TrieOk(t, x) && p in t.nodes && x.level[p] < 3 && t.nodes[p][b] == None
    ensures Find(AddNode(t, p, b), name) == Find(t, name)
  {
    AddNodeWalk(t, x, p, b, name, 3);
    NodeAtIs(t, x, name, 3);
  }

  lemma {:induction false} AddObjectWalk(t: Trie, x: Index, p: Ptr, b: Byte, name: Name, l: nat)
    requires TrieOk(t, x) && p in t.nodes && x.level[p] == 3 && b < 256 && l <= 3
    ensures NodeAt(AddObject(t, p, b), name, l) == NodeAt(t, name, l)
  {
    if l > 0 {
      AddObjectWalk(t, x, p, b, name, l - 1);
      NodeAtIs(t, x, name, l - 1);
    }
  }

  /** A new object disturbs no other name. */
  lemma AddObjectKeeps(t: Trie, x: Index, p: Ptr, name: Name, other: Name)
    requires TrieOk(t, x) && NodeAt(t, name, 3) == Some(p) && p in t.nodes && x.level[p] == 3
    requires t.nodes[p][ByteOf(name, 3)] == None
    ensures var u := AddObject(t, p, ByteOf(name, 3));
      Find(u, other) == if other == name then Some(t.next) else Find(t, other)
  {
    AddObjectWalk(t, x, p, ByteOf(name, 3), other, 3);
    NodeAtIs(t, x, name, 3);
    NodeAtIs(t, x, other, 3);
    NextPrefix(name, 3);
    NextPrefix(other, 3);
  }

  // ---- Binding points ----

  /** The fourteen buffer fields of a context. */
  datatype Target =
    | Array | AtomicCounter | CopyRead | CopyWrite | DispatchIndirect
    | DrawIndirect | ElementArray | PixelPack | PixelUnpack | Query
    | ShaderStorage | Texture | TransformFeedback | Uniform

  /** The field that a GLenum selects; None is an enum that is not a buffer target. */
  function TargetOf(target: nat): Option<Target> {
    if target == 0x8892 then Some(Array)
    else if target == 0x92C0 then Some(AtomicCounter)
    else if target == 0x8F36 then Some(CopyRead)
    else if target == 0x8F37 then Some(CopyWrite)
    else if target == 0x90EE then Some(DispatchIndirect)
    else if target == 0x8F3F then Some(DrawIndirect)
    else if target == 0x8893 then Some(ElementArray)
    else if target == 0x88EB then Some(PixelPack)
    else if target == 0x88EC then Some(PixelUnpack)
    else if target == 0x9192 then Some(Query)
    else if target == 0x90D2 then Some(ShaderStorage)
    else if target == 0x8C2A then Some(Texture)
    else if target == 0x8C8E then Some(TransformFeedback)
    else if target == 0x8A11 then Some(Uniform)
    else None
  }

  function EnumOf(t: Target): (e: nat)
    ensures TargetOf(e) == Some(t)
  {
    match t
    case Array => 0x8892
    case AtomicCounter => 0x92C0
    case CopyRead => 0x8F36
    case CopyWrite => 0x8F37
    case DispatchIndirect => 0x90EE
    case DrawIndirect => 0x8F3F
    case ElementArray => 0x8893
    case PixelPack => 0x88EB
    case PixelUnpack => 0x88EC
    case Query => 0x9192
    case ShaderStorage => 0x90D2
    case Texture => 0x8C2A
    case TransformFeedback => 0x8C8E
    case Uniform => 0x8A11
  }

  type Bindings = map<Target, Option<Ptr>>

  function NoBindings(): Bindings {
    map[
      Array := None, AtomicCounter := None, CopyRead := None, CopyWrite := None, DispatchIndirect := None,
      DrawIndirect := None, ElementArray := None, PixelPack := None, PixelUnpack := None, Query := None,
      ShaderStorage := None, Texture := None, TransformFeedback := None, Uniform := None
    ]
  }

  lemma NothingBound(k: Target)
    ensures k in NoBindings() && NoBindings()[k] == None
  {
    match k {
      case Array =>
      case AtomicCounter =>
      case CopyRead =>
      case CopyWrite =>
      case DispatchIndirect =>
      case DrawIndirect =>
      case ElementArray =>
      case PixelPack =>
      case PixelUnpack =>
      case Query =>
      case ShaderStorage =>
      case Texture =>
      case TransformFeedback =>
      case Uniform =>
    }
  }

  const NO_ERROR := 0
  const INVALID_ENUM := 0x0500
  const INVALID_VALUE := 0x0501
  const INVALID_OPERATION := 0x0502

  /** The buffer is owned by exactly one name. */
  ghost predicate Owned(t: Trie, b: Ptr) {
    exists n: Name :: At(t, n) == BufferObj(b)
  }

  /** No two names own the same buffer. */
  ghost predicate OneOwner(t: Trie) {
    forall m: Name, n: Name :: At(t, m).BufferObj? && At(t, m) == At(t, n) ==> m == n
  }

  /** Every binding point is empty or holds the buffer of a live object. */
  ghost predicate BindingsOk(t: Trie, bindings: Bindings) {
    forall k: Target :: k in bindings && (bindings[k].Some? ==> Owned(t, bindings[k].value))
  }

  /** The same names with the same objects. */
  ghost predicate SameNames(t: Trie, u: Trie) {
    forall n: Name :: At(t, n) == At(u, n)
  }

  lemma SameNamesKeep(t: Trie, u: Trie, bindings: Bindings)
    requires SameNames(t, u) && OneOwner(t) && BindingsOk(t, bindings)
    ensures OneOwner(u) && BindingsOk(u, bindings)
  {
    hide At;
    forall k: Target ensures k in bindings && (bindings[k].Some? ==> Owned(u, bindings[k].value)) {
      if bindings[k].Some? {
        var n: Name :| At(t, n) == BufferObj(bindings[k].value);
        assert At(u, n) == At(t, n);
      }
    }
    forall m: Name, n: Name | At(u, m).BufferObj? && At(u, m) == At(u, n) ensures m == n {
      assert At(t, m) == At(u, m) && At(t, n) == At(u, n);
    }
  }

  /** Changing the object of one name. */
  ghost predicate OneChanged(t: Trie, u: Trie, name: Name, o: Object) {
    forall n: Name :: At(u, n) == if n == name then o else At(t, n)
  }

  lemma SetObject(t: Trie, x: Index, name: Name, o: Object)
    requires TrieOk(t, x) && Find(t, name).Some?
    ensures Find(t, name).value in t.objs
    ensures var u := t.(objs := t.objs[Find(t, name).value := o]);
      TrieOk(u, x) && OneChanged(t, u, name, o)
  {
    FindIs(t, x, name);
    var u := t.(objs := t.objs[Find(t, name).value := o]);
    forall p, b | p in u.nodes && 0 <= b < 256 ensures LinkOk(u, x, p, b) {
      assert LinkOk(t, x, p, b);
    }
    forall n: Name ensures At(u, n) == if n == name then o else At(t, n) {
      SameWalk(t, u, n, 3);
      FindIs(t, x, n);
    }
  }

  lemma {:induction false} SameWalk(t: Trie, u: Trie, name: Name, l: nat)
    requires u.root == t.root && u.nodes == t.nodes && l <= 3
    ensures NodeAt(u, name, l) == NodeAt(t, name, l)
  {
    if l > 0 { SameWalk(t, u, name, l - 1); }
  }

  /** Reserving or freeing a name that has no buffer, and giving a name a new buffer. */
  lemma ChangeKeeps(t: Trie, u: Trie, name: Name, o: Object, bindings: Bindings)
    requires OneOwner(t) && BindingsOk(t, bindings) && OneChanged(t, u, name, o)
    requires !At(t, name).BufferObj? && (o.BufferObj? ==> !Owned(t, o.asBuffer))
    ensures OneOwner(u) && BindingsOk(u, bindings)
  {
    hide At;
    forall m: Name, n: Name | At(u, m).BufferObj? && At(u, m) == At(u, n) ensures m == n {
      if m != name && n != name {
        assert At(t, m) == At(u, m) && At(t, n) == At(u, n);
      } else {
        assert m != name ==> At(t, m) == At(u, m);
        assert n != name ==> At(t, n) == At(u, n);
      }
    }
    forall k: Target ensures k in bindings && (bindings[k].Some? ==> Owned(u, bindings[k].value)) {
      if bindings[k].Some? {
        var n: Name :| At(t, n) == BufferObj(bindings[k].value);
        assert At(u, n) == At(t, n);
      }
    }
  }

  /** Freeing a name whose buffer has been taken off every binding point. */
  lemma DropKeeps(t: Trie, u: Trie, name: Name, bindings: Bindings)
    requires OneOwner(t) && BindingsOk(t, bindings) && OneChanged(t, u, name, Free)
    requires forall k: Target :: k in bindings && bindings[k].Some? ==> At(t, name) != BufferObj(bindings[k].value)
    ensures OneOwner(u) && BindingsOk(u, bindings)
  {
    hide At;
    forall m: Name, n: Name | At(u, m).BufferObj? && At(u, m) == At(u, n) ensures m == n {
      assert At(t, m) == At(u, m) && At(t, n) == At(u, n);
    }
    forall k: Target ensures k in bindings && (bindings[k].Some? ==> Owned(u, bindings[k].value)) {
      if bindings[k].Some? {
        var n: Name :| At(t, n) == BufferObj(bindings[k].value);
        assert n != name && At(u, n) == At(t, n);
      }
    }
  }

  // ---- Steps of a lookup ----

  lemma WalkStarts(t: Trie, name: Name)
    ensures NodeAt(t, name, 0) == Some(t.root)
  {
  }

  lemma NodeIsThere(t: Trie, x: Index, name: Name, i: nat)
    requires TrieOk(t, x) && i <= 3 && NodeAt(t, name, i).Some?
    ensures var p := NodeAt(t, name, i).value;
      p in t.nodes && |t.nodes[p]| == 256 && p in x.level && p in x.prefix && x.level[p] == i
  {
    NodeAtIs(t, x, name, i);
  }

  lemma StepDown(t: Trie, name: Name, i: nat, p: Ptr)
    requires i < 3 && NodeAt(t, name, i) == Some(p) && p in t.nodes && |t.nodes[p]| == 256
    ensures NodeAt(t, name, i + 1) == t.nodes[p][ByteOf(name, i)]
    ensures t.nodes[p][ByteOf(name, i)] == None ==> Find(t, name) == None
  {
    if t.nodes[p][ByteOf(name, i)] == None {
      NoWayDown(t, name, i + 1, 3);
    }
  }

  lemma {:induction false} NoWayDown(t: Trie, name: Name, i: nat, l: nat)
    requires i <= l <= 3 && NodeAt(t, name, i) == None
    ensures NodeAt(t, name, l) == None
  {
    if i < l { NoWayDown(t, name, i, l - 1); }
  }

  lemma NewStep(t: Trie, x: Index, name: Name, i: nat, p: Ptr)
    requires TrieOk(t, x) && i < 3 && NodeAt(t, name, i) == Some(p) && p in t.nodes
    requires x.level[p] == i && t.nodes[p][ByteOf(name, i)] == None
    ensures var u := AddNode(t, p, ByteOf(name, i));
      p in u.nodes && |u.nodes[p]| == 256 && u.nodes[p][ByteOf(name, i)] == Some(t.next)
      && NodeAt(u, name, i + 1) == Some(t.next) && u.objs == t.objs
  {
    AddNodeWalk(t, x, p, ByteOf(name, i), name, i);
  }

  lemma LastStep(t: Trie, name: Name, p: Ptr)
    requires NodeAt(t, name, 3) == Some(p) && p in t.nodes && |t.nodes[p]| == 256
    ensures Find(t, name) == t.nodes[p][ByteOf(name, 3)]
  {
  }

  lemma NewObject(t: Trie, x: Index, p: Ptr, b: Byte)
    requires TrieOk(t, x) && p in t.nodes
    ensures t.next !in t.objs
    ensures var u := AddObject(t, p, b);
      p in u.nodes && |u.nodes[p]| == 256 && u.nodes[p][b] == Some(t.next) && u.objs == t.objs[t.next := Free]
  {
  }

  /** Only the name looked up may have got an object, and that one is free. */
  lemma NamesFrom(t: Trie, u: Trie, x: Index, y: Index, name: Name)
    requires TrieOk(t, x) && TrieOk(u, y)
    requires forall n: Name :: n != name ==> Find(u, n) == Find(t, n)
    requires Find(u, name).Some?
    requires (Find(t, name) == Find(u, name) && u.objs == t.objs)
          || (Find(t, name) == None && Find(u, name).value !in t.objs && u.objs == t.objs[Find(u, name).value := Free])
    ensures SameNames(t, u)
    ensures Find(u, name).value in u.objs && u.objs[Find(u, name).value] == At(u, name)
  {
    hide TrieOk, Find;
    FindIs(u, y, name);
    forall n: Name ensures At(t, n) == At(u, n) {
      FindIs(t, x, n);
      FindIs(u, y, n);
    }
  }

  /** What the driver answers: a new buffer or an error, and the result of binding. */
  datatype Driver = Driver(created: Option<Ptr>, createError: nat, bindError: nat)

  // ---- What the calls come to ----

  predicate Deletable(o: Object) { o == Reserved || o.BufferObj? }

  /** Exactly the deletable names of the list have become free. */
  ghost predicate Freed(t: Trie, u: Trie, names: seq<Name>) {
    forall n: Name :: At(u, n) == (if n in names && Deletable(At(t, n)) then Free else At(t, n))
  }

  /** Some name of the list owns the buffer. */
  ghost predicate OwnedAmong(t: Trie, names: seq<Name>, b: Ptr) {
    exists n :: n in names && At(t, n) == BufferObj(b)
  }

  /** Exactly the buffers owned by names of the list have been taken off the binding points. */
  ghost predicate Unbound(t: Trie, names: seq<Name>, old_: Bindings, new_: Bindings) {
    forall k: Target :: k in old_ && k in new_
      && new_[k] == (if old_[k].Some? && OwnedAmong(t, names, old_[k].value) then None else old_[k])
  }

  ghost predicate TakenOff(old_: Bindings, new_: Bindings, buffer: Ptr) {
    forall k: Target :: k in old_ && k in new_ && new_[k] == (if old_[k] == Some(buffer) then None else old_[k])
  }

  /** The same for the binding points of a set; the others have not been looked at. */
  ghost predicate TakenOffAt(old_: Bindings, new_: Bindings, buffer: Ptr, done: set<Target>) {
    forall k: Target :: k in old_ && k in new_
      && new_[k] == (if k in done && old_[k] == Some(buffer) then None else old_[k])
  }

  /** Exactly the names of the list have become reserved. */
  ghost predicate AllReserved(t: Trie, u: Trie, names: seq<Name>) {
    forall c: Name :: At(u, c) == (if c in names then Reserved else At(t, c))
  }

  function FirstError(old_: nat, e: nat): nat { if old_ == NO_ERROR then e else old_ }

  /** The error that glBindBuffer raises, in the order of its checks. */
  ghost function BindError(t: Trie, target: nat, name: Name, supported: bool, driver: Driver): nat {
    if TargetOf(target) == None then INVALID_ENUM
    else if !supported then INVALID_OPERATION
    else if name != 0 && At(t, name) == Reserved && driver.created == None then driver.createError
    else if name != 0 && At(t, name) != Reserved && !At(t, name).BufferObj? then INVALID_VALUE
    else driver.bindError
  }

  /** name was free, is tried after those taken before it, and every free name tried before it was among them. */
  ghost predicate LeastFree(t: Trie, taken: seq<Name>, name: Name) {
    && At(t, name) == Free
    && (forall c: Name :: Rank(c) < Rank(name) && At(t, c) == Free ==> c in taken)
    && (forall c :: c in taken ==> Rank(c) < Rank(name))
  }

  class Context {
    var trie: Trie
    var error: nat
    var bindings: Bindings
    ghost var index: Index

    ghost predicate Valid()
      reads this
    {
      TrieOk(trie, index) && OneOwner(trie) && BindingsOk(trie, bindings)
    }

    constructor ()
      ensures Valid() && error == NO_ERROR
      ensures forall n: Name :: At(trie, n) == Free
      ensures forall k: Target :: k in bindings && bindings[k] == None
    {
      trie := Trie(0, map[0 := EmptyNode()], map[], 1);
      index := Index(map[0 := 0], map[0 := 0], map[]);
      error := NO_ERROR;
      bindings := NoBindings();
      new;
      forall k: Target ensures k in bindings && bindings[k] == None {
        NothingBound(k);
      }
      forall n: Name ensures At(trie, n) == Free {
        NothingFound(trie, index, n);
      }
    }

    /** ddiglSetError: the first error stays until it is asked for. */
    method SetError(e: nat)
      modifies `error
      ensures error == FirstError(old(error), e)
      ensures error == if old(error) == 0 then e else old(error)
    {
      if error == NO_ERROR { error := e; }
    }

    /**
     ddiglGetObject: the object of a name. Nodes that are missing on the way, and
     the object itself, are made; that changes the object of no name.
     */
    method GetObject(name: Name) returns (obj: Ptr)
      requires Valid()
      modifies `trie, `index
      ensures Valid() && Find(trie, name) == Some(obj) && SameNames(old(trie), trie)
      ensures obj in trie.objs && trie.objs[obj] == At(trie, name)
      ensures old(Find(trie, name)).Some? ==> trie == old(trie)
      ensures forall n: Name :: n != name ==> Find(trie, n) == old(Find(trie, n))
    {
      hide TrieOk, Find, Prefix, At, OneOwner, BindingsOk, NodeAt, SameNames;
      hide AddNode, AddObject, IndexNode, IndexObject;
      var node := trie.root;
      WalkStarts(trie, name);
      for i := 0 to 3
        invariant TrieOk(trie, index) && NodeAt(trie, name, i) == Some(node)
        invariant forall n: Name :: Find(trie, n) == old(Find(trie, n))
        invariant trie.objs == old(trie).objs && (old(Find(trie, name)).Some? ==> trie == old(trie))
      {
        var ent := ByteOf(name, i);
        NodeIsThere(trie, index, name, i);
        StepDown(trie, name, i, node);
        if trie.nodes[node][ent] == None {
          forall n: Name ensures Find(AddNode(trie, node, ent), n) == Find(trie, n) {
            AddNodeKeeps(trie, index, node, ent, n);
          }
          AddNodeOk(trie, index, node, ent);
          NewStep(trie, index, name, i, node);
          trie, index := AddNode(trie, node, ent), IndexNode(trie, index, node, ent);
        }
        node := trie.nodes[node][ent].value;
      }
      var objent := ByteOf(name, 3);
      NodeIsThere(trie, index, name, 3);
      LastStep(trie, name, node);
      if trie.nodes[node][objent] == None {
        forall n: Name
          ensures Find(AddObject(trie, node, objent), n) == if n == name then Some(trie.next) else Find(trie, n)
        {
          AddObjectKeeps(trie, index, node, name, n);
        }
        AddObjectOk(trie, index, node, objent);
        NewObject(trie, index, node, objent);
        trie, index := AddObject(trie, node, objent), IndexObject(trie, index, node, objent);
      }
      obj := trie.nodes[node][objent].value;
      NamesFrom(old(trie), trie, old(index), index, name);
      SameNamesKeep(old(trie), trie, bindings);
    }

    /** obj->type and the pointer beside it are assigned. */
    method SetObjectOf(name: Name, obj: Ptr, o: Object)
      requires TrieOk(trie, index) && Find(trie, name) == Some(obj)
      modifies `trie
      ensures TrieOk(trie, index) && OneChanged(old(trie), trie, name, o)
    {
      SetObject(trie, index, name, o);
      trie := trie.(objs := trie.objs[obj := o]);
    }

    /**
     ddiglAllocName: the first free candidate, from 1 on and with 0 last. `room` is
     any free name: without one there is no end (`SomeNameIsFound`).
     */
    method AllocName(ghost room: Name) returns (cand: Name)
      requires Valid() && At(trie, room) == Free
      modifies `trie, `index
      ensures Valid() && old(At(trie, cand)) == Free
      ensures forall c: Name :: Rank(c) < Rank(cand) ==> old(At(trie, c)) != Free
      ensures cand == 0 <==> forall c: Name :: c >= 1 ==> old(At(trie, c)) != Free
      ensures OneChanged(old(trie), trie, cand, Reserved)
    {
      hide TrieOk, Find, At, OneOwner, BindingsOk;
      cand := 1;
      while true
        invariant Valid() && SameNames(old(trie), trie) && Rank(cand) <= Rank(room)
        invariant forall c: Name :: Rank(c) < Rank(cand) ==> old(At(trie, c)) != Free
        decreases Rank(room) - Rank(cand)
      {
        var obj := GetObject(cand);
        if trie.objs[obj] == Free {
          ghost var t := trie;
          SetObjectOf(cand, obj, Reserved);
          ChangeKeeps(t, trie, cand, Reserved, bindings);
          return;
        }
        cand := (cand + 1) % NAMES;
      }
    }

    /**
     ddiglGenObjects: the n first free names, in order, are reserved and no other
     name changes. `room` witnesses that enough names are free.
     */
    method GenObjects(n: int, ghost room: set<Name>) returns (names: seq<Name>)
      requires Valid() && n <= |room| && forall r :: r in room ==> At(trie, r) == Free
      modifies this
      ensures Valid() && bindings == old(bindings)
      ensures n < 0 ==> names == [] && trie == old(trie) && error == FirstError(old(error), INVALID_VALUE)
      ensures n >= 0 ==> |names| == n && error == old(error)
      ensures forall k :: 0 <= k < |names| ==> LeastFree(old(trie), names[..k], names[k])
      ensures AllReserved(old(trie), trie, names)
    {
      hide TrieOk, Find, At, OneOwner, BindingsOk, LeastFree, AllReserved;
      ReservedNone(trie);
      names := [];
      if n < 0 {
        SetError(INVALID_VALUE);
        return;
      }
      var left := n;
      ghost var spare := room;
      while left != 0
        invariant 0 <= left && |names| == n - left && left <= |spare|
        invariant Valid() && bindings == old(bindings) && error == old(error)
        invariant forall r :: r in spare ==> At(trie, r) == Free
        invariant forall k :: 0 <= k < |names| ==> LeastFree(old(trie), names[..k], names[k])
        invariant AllReserved(old(trie), trie, names)
        decreases left
      {
        left := left - 1;
        ghost var t := trie;
        ghost var w :| w in spare;
        var name := AllocName(w);
        NextLeast(old(trie), t, trie, names, name);
        spare := spare - {if name in spare then name else w};
        assert forall k :: 0 <= k < |names| ==> (names + [name])[..k] == names[..k];
        assert (names + [name])[..|names|] == names;
        names := names + [name];
      }
    }

    /** glGenBuffers. */
    method GenBuffers(supported: bool, n: int, ghost room: set<Name>) returns (names: seq<Name>)
      requires Valid() && n <= |room| && forall r :: r in room ==> At(trie, r) == Free
      modifies this
      ensures Valid() && bindings == old(bindings)
      ensures !supported ==> names == [] && trie == old(trie) && error == FirstError(old(error), INVALID_OPERATION)
      ensures supported && n >= 0 ==> |names| == n && error == old(error)
      ensures supported && n < 0 ==> error == FirstError(old(error), INVALID_VALUE)
      ensures forall k :: 0 <= k < |names| ==> LeastFree(old(trie), names[..k], names[k])
      ensures AllReserved(old(trie), trie, names)
    {
      hide TrieOk, Find, At, OneOwner, BindingsOk;
      if !supported {
        ReservedNone(trie);
        SetError(INVALID_OPERATION);
        return [];
      }
      names := GenObjects(n, room);
    }

    /** setBinding: the driver may refuse. */
    method SetBinding(target: Target, buffer: Option<Ptr>, driver: Driver)
      requires Valid() && (buffer.Some? ==> Owned(trie, buffer.value))
      modifies `bindings, `error
      ensures Valid()
      ensures driver.bindError == NO_ERROR ==> bindings == old(bindings)[target := buffer] && error == old(error)
      ensures driver.bindError != NO_ERROR ==>
        bindings == old(bindings) && error == FirstError(old(error), driver.bindError)
    {
      hide TrieOk, Find, At, OneOwner;
      if driver.bindError != NO_ERROR {
        SetError(driver.bindError);
        return;
      }
      bindings := bindings[target := buffer];
    }

    /**
     glBindBuffer: a reserved name gets a new buffer when it is first bound; only a
     name with a buffer can be bound.
     */
    method BindBuffer(target: nat, name: Name, supported: bool, driver: Driver)
      requires Valid()
      requires driver.created.Some? ==> !Owned(trie, driver.created.value)
      requires driver.created == None ==> driver.createError != NO_ERROR
      modifies this
      ensures Valid()
      ensures BindError(old(trie), target, name, supported, driver) != NO_ERROR ==>
        bindings == old(bindings)
        && error == FirstError(old(error), BindError(old(trie), target, name, supported, driver))
      ensures BindError(old(trie), target, name, supported, driver) == NO_ERROR ==>
        && error == old(error)
        && var k := TargetOf(target).value;
        if name == 0 then bindings == old(bindings)[k := None]
        else At(trie, name).BufferObj? && bindings == old(bindings)[k := Some(At(trie, name).asBuffer)]
      ensures
        if name != 0 && TargetOf(target).Some? && supported
           && old(At(trie, name)) == Reserved && driver.created.Some?
        then OneChanged(old(trie), trie, name, BufferObj(driver.created.value))
        else SameNames(old(trie), trie)
    {
      hide TrieOk, Find, At, OneOwner, BindingsOk, TargetOf, Owned, FirstError;
      var k := TargetOf(target);
      if k == None {
        SetError(INVALID_ENUM);
        return;
      }
      if !supported {
        SetError(INVALID_OPERATION);
        return;
      }
      if name == 0 {
        SetBinding(k.value, None, driver);
        return;
      }
      var obj := GetObject(name);
      StillFree(old(trie), trie, driver);
      if trie.objs[obj] == Reserved {
        if driver.created == None {
          SetError(driver.createError);
          return;
        }
        ghost var t := trie;
        SetObjectOf(name, obj, BufferObj(driver.created.value));
        ChangeKeeps(t, trie, name, BufferObj(driver.created.value), bindings);
        IsOwned(trie, name);
        SetBinding(k.value, Some(driver.created.value), driver);
        return;
      }
      if !trie.objs[obj].BufferObj? {
        SetError(INVALID_VALUE);
        return;
      }
      IsOwned(trie, name);
      SetBinding(k.value, Some(trie.objs[obj].asBuffer), driver);
    }

    /** ddiglGetBuffer: what is bound to a target; nothing to an enum that is none. */
    method GetBuffer(target: nat) returns (buffer: Option<Ptr>)
      requires Valid()
      ensures buffer.Some? ==> TargetOf(target).Some? && Owned(trie, buffer.value)
      ensures TargetOf(target).Some? ==> buffer == bindings[TargetOf(target).value]
    {
      hide TrieOk, Find, At, OneOwner, TargetOf;
      var k := TargetOf(target);
      if k == None { return None; }
      assert k.value in bindings;
      buffer := bindings[k.value];
    }

    /** One of the tests of deleteBuffer; `b0` are the bindings before the first one. */
    method TakeOff(
      k: Target, buffer: Ptr, ghost b0: Bindings, ghost done: set<Target>
    ) returns (ghost done': set<Target>)
      requires TakenOffAt(b0, bindings, buffer, done)
      modifies `bindings
      ensures done' == done + {k} && TakenOffAt(b0, bindings, buffer, done')
    {
      if bindings[k] == Some(buffer) { bindings := bindings[k := None]; }
      done' := done + {k};
    }

    /** deleteBuffer: the buffer is taken off every binding point. */
    method DeleteBuffer(buffer: Ptr)
      requires forall k: Target :: k in bindings
      modifies `bindings
      ensures TakenOff(old(bindings), bindings, buffer)
    {
      ghost var b0, done := bindings, {};
      assert TakenOffAt(b0, bindings, buffer, done);
      hide TakenOffAt;
      done := TakeOff(Array, buffer, b0, done);
      done := TakeOff(AtomicCounter, buffer, b0, done);
      done := TakeOff(CopyRead, buffer, b0, done);
      done := TakeOff(CopyWrite, buffer, b0, done);
      done := TakeOff(DispatchIndirect, buffer, b0, done);
      done := TakeOff(DrawIndirect, buffer, b0, done);
      done := TakeOff(ElementArray, buffer, b0, done);
      done := TakeOff(PixelPack, buffer, b0, done);
      done := TakeOff(PixelUnpack, buffer, b0, done);
      done := TakeOff(Query, buffer, b0, done);
      done := TakeOff(ShaderStorage, buffer, b0, done);
      done := TakeOff(Texture, buffer, b0, done);
      done := TakeOff(TransformFeedback, buffer, b0, done);
      done := TakeOff(Uniform, buffer, b0, done);
      forall k: Target ensures k in done { IsTarget(k); }
      AllTakenOff(b0, bindings, buffer, done);
    }

    /** deleteBufferName. */
    method DeleteBufferName(name: Name)
      requires Valid()
      modifies this
      ensures Valid() && error == old(error)
      ensures Freed(old(trie), trie, [name]) && Unbound(old(trie), [name], old(bindings), bindings)
    {
      hide TrieOk, Find, At, OneOwner, Freed, Unbound, BindingsOk, OneChanged, SameNames, TakenOff;
      EveryTarget(trie, bindings);
      var obj := GetObject(name);
      ghost var t := trie;
      if trie.objs[obj] == Reserved {
        SetObjectOf(name, obj, Free);
        ChangeKeeps(t, trie, name, Free, bindings);
      } else if trie.objs[obj].BufferObj? {
        var buffer := trie.objs[obj].asBuffer;
        DeleteBuffer(buffer);
        FewerBound(t, old(bindings), bindings, name, buffer);
        SetObjectOf(name, obj, Free);
        DropKeeps(t, trie, name, bindings);
      }
      FreedOne(old(trie), t, trie, name, old(bindings), bindings);
    }

    /** glDeleteBuffers: names that are reserved or have a buffer become free, and their buffers unbound. */
    method DeleteBuffers(names: seq<Name>)
      requires Valid()
      modifies this
      ensures Valid() && error == old(error)
      ensures Freed(old(trie), trie, names) && Unbound(old(trie), names, old(bindings), bindings)
      ensures forall n: Name ::
        match old(At(trie, n))
        case Reserved => At(trie, n) == (if n in names then Free else Reserved)
        case BufferObj(b) => At(trie, n) == (if n in names then Free else BufferObj(b))
        case o => At(trie, n) == o
    {
      hide TrieOk, Find, At, OneOwner, BindingsOk, Freed, Unbound;
      FreedNone(trie, bindings);
      for i := 0 to |names|
        invariant Valid() && error == old(error)
        invariant Freed(old(trie), trie, names[..i]) && Unbound(old(trie), names[..i], old(bindings), bindings)
      {
        ghost var t, b := trie, bindings;
        DeleteBufferName(names[i]);
        FreedMore(old(trie), t, trie, names[..i], names[i], old(bindings), b, bindings);
        assert names[..i + 1] == names[..i] + [names[i]];
      }
      assert names[..|names|] == names;
      FreedIs(old(trie), trie, names);
    }
  }

  lemma IsTarget(k: Target)
    ensures k in {Array, AtomicCounter, CopyRead, CopyWrite, DispatchIndirect, DrawIndirect, ElementArray,
                  PixelPack, PixelUnpack, Query, ShaderStorage, Texture, TransformFeedback, Uniform}
  {
  }

  lemma AllTakenOff(old_: Bindings, new_: Bindings, buffer: Ptr, done: set<Target>)
    requires TakenOffAt(old_, new_, buffer, done) && forall k: Target :: k in done
    ensures TakenOff(old_, new_, buffer)
  {
  }

  lemma FreedIs(t: Trie, u: Trie, names: seq<Name>)
    requires Freed(t, u, names)
    ensures forall n: Name ::
      match At(t, n)
      case Reserved => At(u, n) == (if n in names then Free else Reserved)
      case BufferObj(b) => At(u, n) == (if n in names then Free else BufferObj(b))
      case o => At(u, n) == o
  {
    hide At;
  }

  lemma FreedNone(t: Trie, bindings: Bindings)
    requires BindingsOk(t, bindings)
    ensures Freed(t, t, []) && Unbound(t, [], bindings, bindings)
  {
    hide At;
  }

  lemma EveryTarget(t: Trie, bindings: Bindings)
    requires BindingsOk(t, bindings)
    ensures forall k: Target :: k in bindings
  {
  }

  lemma FewerBound(t: Trie, old_: Bindings, new_: Bindings, name: Name, buffer: Ptr)
    requires BindingsOk(t, old_) && TakenOff(old_, new_, buffer) && At(t, name) == BufferObj(buffer)
    ensures BindingsOk(t, new_)
    ensures forall k: Target :: k in new_ && new_[k].Some? ==> At(t, name) != BufferObj(new_[k].value)
  {
    hide At;
  }

  lemma FreedOne(t0: Trie, t: Trie, u: Trie, name: Name, old_: Bindings, new_: Bindings)
    requires SameNames(t0, t) && BindingsOk(t0, old_)
    requires if Deletable(At(t, name)) then OneChanged(t, u, name, Free) else u == t
    requires if At(t, name).BufferObj? then TakenOff(old_, new_, At(t, name).asBuffer) else new_ == old_
    ensures Freed(t0, u, [name]) && Unbound(t0, [name], old_, new_)
  {
    hide At;
  }

  lemma FreedMore(t: Trie, u: Trie, v: Trie, names: seq<Name>, name: Name, b0: Bindings, b1: Bindings, b2: Bindings)
    requires Freed(t, u, names) && Freed(u, v, [name]) && OneOwner(t)
    requires Unbound(t, names, b0, b1) && Unbound(u, [name], b1, b2)
    ensures Freed(t, v, names + [name]) && Unbound(t, names + [name], b0, b2)
  {
    hide At;
    forall k: Target ensures k in b0 && k in b2
      && b2[k] == (if b0[k].Some? && OwnedAmong(t, names + [name], b0[k].value) then None else b0[k])
    {
      if b0[k].Some? { OwnedMore(t, u, names, name, b0[k].value); }
    }
  }

  lemma OwnedMore(t: Trie, u: Trie, names: seq<Name>, name: Name, b: Ptr)
    requires Freed(t, u, names) && OneOwner(t)
    ensures OwnedAmong(t, names + [name], b) <==> OwnedAmong(t, names, b) || OwnedAmong(u, [name], b)
  {
    hide At;
    if OwnedAmong(t, names, b) {
      var n :| n in names && At(t, n) == BufferObj(b);
      assert n in names + [name];
    }
    if OwnedAmong(u, [name], b) {
      assert At(u, name) == BufferObj(b) && At(t, name) == BufferObj(b) && name in names + [name];
    }
    if OwnedAmong(t, names + [name], b) && !OwnedAmong(t, names, b) {
      var n :| n in names + [name] && At(t, n) == BufferObj(b);
      assert n == name && n !in names && At(u, n) == At(t, n) && n in [name];
    }
  }

  lemma StillFree(t: Trie, u: Trie, driver: Driver)
    requires SameNames(t, u) && (driver.created.Some? ==> !Owned(t, driver.created.value))
    ensures driver.created.Some? ==> !Owned(u, driver.created.value)
  {
    hide At;
  }

  lemma IsOwned(t: Trie, name: Name)
    requires At(t, name).BufferObj?
    ensures Owned(t, At(t, name).asBuffer)
  {
  }

  lemma ReservedNone(t: Trie)
    ensures AllReserved(t, t, [])
  {
  }

  lemma NextLeast(t0: Trie, t: Trie, u: Trie, names: seq<Name>, name: Name)
    requires AllReserved(t0, t, names) && OneChanged(t, u, name, Reserved)
    requires At(t, name) == Free && forall c: Name :: Rank(c) < Rank(name) ==> At(t, c) != Free
    requires forall k :: 0 <= k < |names| ==> LeastFree(t0, names[..k], names[k])
    ensures LeastFree(t0, names, name) && AllReserved(t0, u, names + [name])
  {
    hide At;
    forall c | c in names ensures Rank(c) < Rank(name) {
      var k :| 0 <= k < |names| && names[k] == c;
      TakenInOrder(t0, names, k, name);
    }
  }

  lemma TakenInOrder(t0: Trie, names: seq<Name>, k: nat, name: Name)
    requires k < |names| && LeastFree(t0, names[..k], names[k])
    requires At(t0, name) == Free && name !in names
    ensures Rank(names[k]) < Rank(name)
  {
    hide At;
    assert name !in names[..k];
  }

  /** The error that stands after a bind, check by check; the first error since the last query stays. */
  lemma BindErrors(t: Trie, target: nat, name: Name, supported: bool, driver: Driver, standing: nat)
    ensures
      var e := BindError(t, target, name, supported, driver);
      && (TargetOf(target) == None ==> e == 0x0500)
      && (TargetOf(target).Some? && !supported ==> e == 0x0502)
      && (TargetOf(target).Some? && supported && name == 0 ==> e == driver.bindError)
      && (TargetOf(target).Some? && supported && name != 0 ==>
            match At(t, name)
            case Free => e == 0x0501
            case VaoObj(_) => e == 0x0501
            case Reserved => e == if driver.created == None then driver.createError else driver.bindError
            case BufferObj(_) => e == driver.bindError)
      && FirstError(standing, e) == (if standing == 0 then e else standing)
  {
    hide At, TargetOf;
  }

  /** The constants that select the binding points; no other number does. */
  lemma TargetsAre(target: nat)
    ensures TargetOf(0x8892) == Some(Array) && TargetOf(0x92C0) == Some(AtomicCounter)
    ensures TargetOf(0x8F36) == Some(CopyRead) && TargetOf(0x8F37) == Some(CopyWrite)
    ensures TargetOf(0x90EE) == Some(DispatchIndirect) && TargetOf(0x8F3F) == Some(DrawIndirect)
    ensures TargetOf(0x8893) == Some(ElementArray) && TargetOf(0x88EB) == Some(PixelPack)
    ensures TargetOf(0x88EC) == Some(PixelUnpack) && TargetOf(0x9192) == Some(Query)
    ensures TargetOf(0x90D2) == Some(ShaderStorage) && TargetOf(0x8C2A) == Some(Texture)
    ensures TargetOf(0x8C8E) == Some(TransformFeedback) && TargetOf(0x8A11) == Some(Uniform)
    ensures TargetOf(target).Some? ==> EnumOf(TargetOf(target).value) == target
  {
  }

  /** The loop of the allocator comes to a free name exactly if there is one. */
  lemma {:induction false} SomeNameIsFound(t: Trie)
    ensures (exists k: nat :: At(t, Candidate(k)) == Free) <==> exists c: Name :: At(t, c) == Free
  {
    hide At;
    if c: Name :| At(t, c) == Free {
      assert Candidate(Rank(c)) == c;
    }
  }

  lemma NothingFound(t: Trie, x: Index, name: Name)
    requires TrieOk(t, x) && t.objs == map[]
    ensures At(t, name) == Free
  {
    FindIs(t, x, name);
  }
}
