/**
 * eosio::rope: text built from shared nodes, flattened by a loop that keeps its way back in the
 * nodes themselves.
 */
module RopeModel {

  /**
   * A rope node. The children never change once a node is linked into a rope; `temp` and
   * `tempLeft` are the scratch fields of the flattening loop. The height says that there are no
   * cycles, though a node may be shared by several parents.
   */
  class Node {
    const isStr: bool
    const text: string
    const left: Node?
    const right: Node?
    ghost const height: nat
    var temp: Node?
    var tempLeft: bool

    /** A str_t. */
    constructor Str(text: string)
      ensures isStr && this.text == text && Ok(this)
    {
      isStr, this.text, left, right, height := true, text, null, null, 0;
      temp, tempLeft := null, false;
    }

    /** A concat_t. */
    constructor Concat(left: Node?, right: Node?)
      requires Ok(left) && Ok(right) && (right != null ==> !right.isStr)
      ensures !isStr && this.left == left && this.right == right && Ok(this)
    {
      isStr, text, this.left, this.right := false, "", left, right;
      height := 1 + (if left == null then 0 else left.height) + (if right == null then 0 else right.height);
      temp, tempLeft := null, false;
    }
  }

  /** No cycles below a node, and no right child that is a str_t. */
  ghost predicate Ok(n: Node?)
    decreases if n == null then 0 else n.height + 1
  {
    n == null || n.isStr ||
    ( && (n.left != null ==> n.left.height < n.height && Ok(n.left))
      && (n.right != null ==> n.right.height < n.height && Ok(n.right) && !n.right.isStr))
  }

  /** The text below a node: what is on the right comes first. */
  ghost function Flatten(n: Node?): (s: string)
    requires Ok(n)
    decreases if n == null then 0 else n.height + 1
  {
    if n == null then "" else if n.isStr then n.text else Flatten(n.right) + Flatten(n.left)
  }

  /** A bound on the turns that the loop spends below a node. */
  ghost function Turns(n: Node?): (t: nat)
    requires Ok(n)
    decreases if n == null then 0 else n.height + 1
  {
    if n == null then 0 else if n.isStr then 1 else Turns(n.left) + Turns(n.right) + 3
  }

  /** A set of nodes that holds the children of its nodes. */
  ghost predicate Closed(nodes: set<Node>) {
    forall n | n in nodes && !n.isStr :: (n.left != null ==> n.left in nodes) && (n.right != null ==> n.right in nodes)
  }

  ghost function Below(n: Node?): (r: set<Node>)
    requires Ok(n)
    decreases if n == null then 0 else n.height + 1
  {
    if n == null then {} else if n.isStr then {n} else {n} + Below(n.left) + Below(n.right)
  }

  lemma {:induction false} BelowClosed(n: Node?)
    requires Ok(n)
    ensures Closed(Below(n)) && (n != null ==> n in Below(n))
    decreases if n == null then 0 else n.height + 1
  {
    if n != null && !n.isStr {
      BelowClosed(n.left);
      BelowClosed(n.right);
    }
  }

  // ---------------------------------------------------------------- the open nodes of the loop

  /** An open node on the way from the root to the current one, and whether its right child is still to come. */
  datatype Open = Open(node: Node, pending: bool)

  ghost predicate PathOk(path: seq<Open>) {
    && (forall i | 0 <= i < |path| :: Ok(path[i].node) && !path[i].node.isStr)
    && (forall i, j | 0 <= i < j < |path| :: path[j].node.height < path[i].node.height)
  }

  /** The text that the open nodes have still to come. */
  ghost function Rest(path: seq<Open>): (s: string)
    requires PathOk(path)
  {
    if path == [] then ""
    else Rest(path[..|path| - 1]) + (if path[|path| - 1].pending then Flatten(path[|path| - 1].node.right) else "")
  }

  ghost function RestTurns(path: seq<Open>): (t: nat)
    requires PathOk(path)
  {
    if path == [] then 0
    else RestTurns(path[..|path| - 1]) + (if path[|path| - 1].pending then 2 + Turns(path[|path| - 1].node.right) else 1)
  }

  ghost function Top(path: seq<Open>): (n: Node?) {
    if path == [] then null else path[|path| - 1].node
  }

  /** The scratch fields record the path: each open node knows its parent and whether its right child is to come. */
  ghost predicate Recorded(path: seq<Open>)
    reads set o | o in path :: o.node
  {
    path == [] ||
    var above, o := path[..|path| - 1], path[|path| - 1];
    Recorded(above) && o.node.temp == Top(above) && o.node.tempLeft == o.pending
  }

  lemma Pushed(path: seq<Open>, o: Open)
    requires PathOk(path) && Ok(o.node) && !o.node.isStr && (path != [] ==> o.node.height < Top(path).height)
    ensures PathOk(path + [o]) && Top(path + [o]) == o.node
    ensures Rest(path + [o]) == Rest(path) + (if o.pending then Flatten(o.node.right) else "")
    ensures RestTurns(path + [o]) == RestTurns(path) + (if o.pending then 2 + Turns(o.node.right) else 1)
  {
    assert (path + [o])[..|path|] == path;
  }

  /** Where the loop stands: on the way down at `r`, or on the way up at the last open node. */
  ghost predicate Standing(nodes: set<Node>, path: seq<Open>, down: bool, r: Node?)
    reads nodes
  {
    && (forall i | 0 <= i < |path| :: path[i].node in nodes) && PathOk(path) && Recorded(path)
    && (if down
        then Ok(r) && if r == null then path == [] else r in nodes && r.temp == Top(path) && (path != [] ==> r.height < Top(path).height)
        else r == Top(path))
  }

  /** The text still to be written, and the turns still to be taken. */
  ghost function Remaining(path: seq<Open>, down: bool, r: Node?): (s: string)
    requires PathOk(path) && Ok(r)
  {
    Rest(path) + (if down then Flatten(r) else "")
  }

  ghost function RemainingTurns(path: seq<Open>, down: bool, r: Node?): (t: nat)
    requires PathOk(path) && Ok(r)
  {
    RestTurns(path) + (if down then Turns(r) else 0)
  }

  lemma ConcatParts(r: Node)
    requires Ok(r) && !r.isStr
    ensures Ok(r.left) && Ok(r.right) && Flatten(r) == Flatten(r.right) + Flatten(r.left) && Turns(r) == Turns(r.left) + Turns(r.right) + 3
    ensures (r.left != null ==> r.left.height < r.height) && (r.right != null ==> r.right.height < r.height)
  {
  }

  lemma StrParts(r: Node)
    requires Ok(r) && r.isStr
    ensures Flatten(r) == r.text && Turns(r) == 1
  {
  }

  /** What remains after the step from `r` to a child. */
  lemma DescendRemains(r: Node, child: Node, viaLeft: bool, path: seq<Open>)
    requires PathOk(path) && Ok(r) && !r.isStr && (path != [] ==> r.height < Top(path).height)
    requires child == if viaLeft then r.left else r.right
    ensures Ok(child) && child.height < r.height
    ensures var longer := path + [Open(r, viaLeft)];
            && PathOk(longer) && Top(longer) == r
            && Remaining(longer, true, child) == Rest(path) + (if viaLeft then Flatten(r) else Flatten(r.right))
            && RemainingTurns(longer, true, child) < RestTurns(path) + (if viaLeft then Turns(r) else Turns(r.right) + 2)
  {
    hide Ok, PathOk, Rest, RestTurns, Flatten, Turns;
    ConcatParts(r);
    Pushed(path, Open(r, viaLeft));
    if viaLeft {
      assert (Rest(path) + Flatten(r.right)) + Flatten(r.left) == Rest(path) + (Flatten(r.right) + Flatten(r.left));
    }
  }

  lemma Higher(path: seq<Open>, r: Node)
    requires PathOk(path) && (path != [] ==> r.height < Top(path).height)
    ensures forall o | o in path :: o.node.height > r.height
  {
  }

  lemma RecordedPush(path: seq<Open>, o: Open)
    requires Recorded(path) && o.node.temp == Top(path) && o.node.tempLeft == o.pending
    ensures Recorded(path + [o])
  {
    assert (path + [o])[..|path|] == path;
  }

  /** Descends from the open node `r` to a child. */
  method Descend(r: Node, child: Node, viaLeft: bool, ghost nodes: set<Node>, ghost path: seq<Open>)
    requires (forall i | 0 <= i < |path| :: path[i].node in nodes) && PathOk(path) && Recorded(path)
    requires r in nodes && child in nodes && Ok(r) && !r.isStr && r.temp == Top(path) && (path != [] ==> r.height < Top(path).height)
    requires child == if viaLeft then r.left else r.right
    modifies r`tempLeft, child`temp
    ensures Standing(nodes, path + [Open(r, viaLeft)], true, child)
    ensures Remaining(path + [Open(r, viaLeft)], true, child) == Rest(path) + (if viaLeft then Flatten(r) else Flatten(r.right))
    ensures RemainingTurns(path + [Open(r, viaLeft)], true, child) < RestTurns(path) + (if viaLeft then Turns(r) else Turns(r.right) + 2)
  {
    hide Ok, Rest, RestTurns, Flatten, Turns, PathOk, Recorded;
    DescendRemains(r, child, viaLeft, path);
    Higher(path, r);
    r.tempLeft := viaLeft;
    child.temp := r;
    RecordedPush(path, Open(r, viaLeft));
  }

  /** One turn on the way down: into a child, or back up behind a text that has been written. */
  method TurnDown(buffer: array<char>, r: Node, off: nat, size: nat, ghost text: string, ghost nodes: set<Node>, ghost path: seq<Open>)
    returns (down: bool, next: Node?, at: nat, ghost longer: seq<Open>)
    requires Closed(nodes) && Standing(nodes, path, true, r)
    requires size == |text| < buffer.Length && off <= size && text[..off] == Remaining(path, true, r) && buffer[off..size] == text[off..]
    modifies buffer, nodes`temp, nodes`tempLeft
    ensures Standing(nodes, longer, down, next) && Ok(next) && at <= size
    ensures text[..at] == Remaining(longer, down, next) && buffer[at..size] == text[at..]
    ensures RemainingTurns(longer, down, next) < RemainingTurns(path, true, r)
  {
    hide Ok, Rest, RestTurns, Flatten, Turns, PathOk, Recorded;
    NoText();
    TopOk(path);
    at, longer := off, path;
    if !r.isStr {
      ConcatParts(r);
      if r.left != null {
        Descend(r, r.left, true, nodes, path);
        down, next, longer := true, r.left, path + [Open(r, true)];
      } else if r.right != null {
        assert Flatten(r.right) + [] == Flatten(r.right);
        Descend(r, r.right, false, nodes, path);
        down, next, longer := true, r.right, path + [Open(r, false)];
      } else {
        down, next := false, r.temp;
      }
    } else {
      StrParts(r);
      at := CopyBefore(buffer, off, size, r.text, text, Rest(path));
      down, next := false, r.temp;
    }
  }

  /** One turn on the way up: to the right child of the last open node, or past that node. */
  method TurnUp(r: Node, ghost nodes: set<Node>, ghost path: seq<Open>) returns (down: bool, next: Node?, ghost other: seq<Open>)
    requires Closed(nodes) && Standing(nodes, path, false, r)
    modifies nodes`temp, nodes`tempLeft
    ensures Standing(nodes, other, down, next) && Ok(next)
    ensures Remaining(other, down, next) == Remaining(path, false, r)
    ensures RemainingTurns(other, down, next) < RemainingTurns(path, false, r)
  {
    hide Ok, Rest, RestTurns, Flatten, Turns, PathOk, Recorded;
    ghost var above, o := path[..|path| - 1], path[|path| - 1];
    assert path == above + [o];
    Popped(path);
    Pushed(above, o);
    ConcatParts(r);
    NoText();
    if r.tempLeft && r.right != null {
      Descend(r, r.right, false, nodes, above);
      down, next, other := true, r.right, above + [Open(r, false)];
    } else {
      down, next, other := false, r.temp, above;
    }
  }

  lemma Popped(path: seq<Open>)
    requires path != [] && PathOk(path) && Recorded(path)
    ensures var above := path[..|path| - 1];
            && PathOk(above) && Recorded(above) && path == above + [path[|path| - 1]]
            && (above != [] ==> Top(path).height < Top(above).height) && Top(path).temp == Top(above)
            && Ok(Top(path)) && !Top(path).isStr && Top(path).tempLeft == path[|path| - 1].pending && Ok(Top(above))
  {
    var above := path[..|path| - 1];
    forall i | 0 <= i < |above|
      ensures above[i] == path[i] && Ok(above[i].node)
    {
    }
  }

  lemma TopOk(path: seq<Open>)
    requires PathOk(path)
    ensures Ok(Top(path))
  {
  }

  lemma NoText()
    ensures Ok(null) && Flatten(null) == "" && Turns(null) == 0 && PathOk([]) && Rest([]) == ""
  {
  }

  /** rope::c_str(buffer, r, off): fills the buffer from its end with the text below `root`. */
  method FlattenInto(buffer: array<char>, root: Node?, size: nat)
    requires Ok(root) && size == |Flatten(root)| < buffer.Length
    modifies buffer, Below(root)`temp, Below(root)`tempLeft
    ensures buffer[..size] == Flatten(root)
  {
    hide Ok, Rest, RestTurns, Flatten, Turns, Below, Closed;
    ghost var nodes, text := Below(root), Flatten(root);
    BelowClosed(root);
    NoText();
    var goingDown, r := true, root;
    var off: nat := size;
    ghost var path: seq<Open> := [];
    if r != null {
      r.temp := null;
    }
    while r != null
      invariant Standing(nodes, path, goingDown, r) && Ok(r)
      invariant off <= size && text[..off] == Remaining(path, goingDown, r)
      invariant buffer[off..size] == text[off..]
      decreases RemainingTurns(path, goingDown, r)
    {
      if goingDown {
        goingDown, r, off, path := TurnDown(buffer, r, off, size, text, nodes, path);
      } else {
        goingDown, r, path := TurnUp(r, nodes, path);
      }
    }
    assert path == [];
  }

  /** memcpy of one piece in front of what has been written. */
  method CopyBefore(buffer: array<char>, off: nat, size: nat, piece: string, ghost text: string, ghost rest: string) returns (at: nat)
    requires off <= size < buffer.Length && size == |text| && text[..off] == rest + piece && buffer[off..size] == text[off..]
    modifies buffer
    ensures at <= size && text[..at] == rest && buffer[at..size] == text[at..]
  {
    assert |text[..off]| == off;
    at := off - |piece|;
    forall i | 0 <= i < |piece| {
      buffer[at + i] := piece[i];
    }
    assert text[..at] == text[..off][..at] == rest;
    forall i | at <= i < size
      ensures buffer[i] == text[i]
    {
      if i < off {
        assert text[i] == text[..off][i];
      } else {
        assert text[off..][i - off] == old(buffer[off..size])[i - off];
      }
    }
  }

  // ---------------------------------------------------------------- one character

  /** What the search for a character leaves behind: done, or past the text below the node. */
  ghost predicate Found(n: Node?, index: nat, ret: char, soFar: nat, stop: bool, ret': char, soFar': nat, stop': bool)
    requires Ok(n)
  {
    var text := Flatten(n);
    if stop then stop' && ret' == ret
    else if index + |text| < soFar then !stop' && ret' == ret && soFar' == soFar - |text|
    else stop' && 0 <= index - (soFar - |text|) < |text| && ret' == text[index - (soFar - |text|)]
  }

  /** What is found on the left or else on the right is found in the whole. */
  lemma FoundBoth(n: Node, index: nat, ret: char, soFar: nat, r1: char, s1: nat, t1: bool, r2: char, s2: nat, t2: bool)
    requires Ok(n) && !n.isStr && Ok(n.left) && Ok(n.right) && |Flatten(n)| <= soFar && index < soFar
    requires Found(n.left, index, ret, soFar, false, r1, s1, t1) && Found(n.right, index, r1, s1, t1, r2, s2, t2)
    ensures Found(n, index, ret, soFar, false, r2, s2, t2)
  {
    hide Flatten, Ok;
    ConcatParts(n);
  }

  /** rope::at(ret, index, rn, index_so_far, stop). A str_t does not look at `stop`, so that it must not be met after the end. */
  method AtNode(n: Node?, index: nat, ret: char, soFar: nat, stop: bool) returns (ret': char, soFar': nat, stop': bool)
    requires Ok(n) && (!stop ==> |Flatten(n)| <= soFar && index < soFar)
    requires stop && n != null ==> !n.isStr
    ensures Found(n, index, ret, soFar, stop, ret', soFar', stop')
    decreases if n == null then 0 else n.height + 1
  {
    hide Flatten;
    NoText();
    ret', soFar', stop' := ret, soFar, stop;
    if n != null {
      if !n.isStr {
        if !stop {
          ConcatParts(n);
          if n.left != null {
            ret', soFar', stop' := AtNode(n.left, index, ret', soFar', stop');
          }
          ghost var r1, s1, t1 := ret', soFar', stop';
          if n.right != null {
            ret', soFar', stop' := AtNode(n.right, index, ret', soFar', stop');
          }
          FoundBoth(n, index, ret, soFar, r1, s1, t1, ret', soFar', stop');
        }
      } else {
        StrParts(n);
        soFar' := soFar' - |n.text|;
        if index >= soFar' {
          ret', stop' := n.text[index - soFar'], true;
        }
      }
    }
  }

  // ---------------------------------------------------------------- the rope

  class Rope {
    var root: Node?
    var size: nat

    ghost predicate Valid()
      reads this
    {
      Ok(root) && root != null && !root.isStr && size == |Flatten(root)|
    }

    ghost function Text(): (s: string)
      requires Valid()
      reads this
    {
      Flatten(root)
    }

    constructor (s: string)
      ensures Valid() && Text() == s
    {
      var str := new Node.Str(s);
      var node := new Node.Concat(str, null);
      root, size := node, |s|;
      new;
      assert Flatten(node) == Flatten(null) + Flatten(str) == s;
    }

    /** append(const char*, size_t): the old text goes to the right of a new node. */
    method Append(s: string)
      requires Valid()
      modifies this
      ensures Valid() && Text() == old(Text()) + s
    {
      var str := new Node.Str(s);
      root := new Node.Concat(str, root);
      size := size + |s|;
      assert Flatten(root) == Flatten(old(root)) + Flatten(str);
    }

    /** append(const rope&), also of the rope itself. */
    method AppendRope(r: Rope)
      requires Valid() && r.Valid()
      modifies this
      ensures Valid() && Text() == old(Text()) + old(r.Text())
      ensures r != this ==> r.Valid() && r.Text() == old(r.Text())
    {
      ghost var mine, other := root, r.root;
      root := new Node.Concat(r.root, root);
      size := size + r.size;
      assert Flatten(root) == Flatten(mine) + Flatten(other);
    }

    method At(index: nat) returns (c: char)
      requires Valid() && index < size
      ensures c == Text()[index]
    {
      var soFar, stop;
      c, soFar, stop := AtNode(root, index, '\0', size, false);
    }

    /** c_str: the text and a terminating zero. */
    method CStr() returns (buffer: array<char>)
      requires Valid()
      modifies Below(root)`temp, Below(root)`tempLeft
      ensures Valid() && Text() == old(Text())
      ensures fresh(buffer) && buffer[..] == Text() + ['\0']
    {
      buffer := new char[size + 1];
      FlattenInto(buffer, root, size);
      buffer[size] := '\0';
      assert buffer[..] == buffer[..size] + ['\0'];
    }
  }
}
