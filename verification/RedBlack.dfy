/** The red-black trees of src/components/lib/sglib-1.0.4/sglib.h, as values.  The macros that repair a tree are
    written once for both directions; so are the functions here, over the near and the far side of a node. */
module RedBlack {
  import opened Arith

  /** An element: what the comparator looks at, and the address that breaks its ties. */
  datatype Elem = Elem(key: int, addr: nat)

  predicate Before(a: Elem, b: Elem) {
    a.key < b.key || (a.key == b.key && a.addr < b.addr)
  }

  datatype Tree = Leaf | Node(left: Tree, elem: Elem, red: bool, right: Tree)

  datatype Side = Left | Right

  function Opposite(side: Side): Side {
    if side.Left? then Right else Left
  }

  function Near(t: Tree, side: Side): Tree
    requires t.Node?
  {
    if side.Left? then t.left else t.right
  }

  function Far(t: Tree, side: Side): Tree
    requires t.Node?
  {
    if side.Left? then t.right else t.left
  }

  function Make(side: Side, near: Tree, elem: Elem, red: bool, far: Tree): Tree {
    if side.Left? then Node(near, elem, red, far) else Node(far, elem, red, near)
  }

  predicate IsRed(t: Tree) {
    t.Node? && t.red
  }

  function Black(t: Tree): Tree {
    if t.Leaf? then t else t.(red := false)
  }

  function Red(t: Tree): Tree {
    if t.Leaf? then t else t.(red := true)
  }

  // ----- what a red-black tree is

  ghost function Members(t: Tree): set<Elem> {
    if t.Leaf? then {} else Members(t.left) + {t.elem} + Members(t.right)
  }

  /** x comes before y on the way from the near to the far side. */
  ghost predicate Precedes(side: Side, x: Elem, y: Elem) {
    if side.Left? then Before(x, y) else Before(y, x)
  }

  ghost predicate Ordered(t: Tree) {
    t.Node? ==>
      && Ordered(t.left) && Ordered(t.right)
      && (forall x :: x in Members(t.left) ==> Before(x, t.elem))
      && (forall x :: x in Members(t.right) ==> Before(t.elem, x))
  }

  /** The number of black nodes on the leftmost path, and on every path of a balanced tree. */
  ghost function Height(t: Tree): nat {
    if t.Leaf? then 0 else Height(t.left) + if t.red then 0 else 1
  }

  ghost predicate Balanced(t: Tree) {
    t.Node? ==> Balanced(t.left) && Balanced(t.right) && Height(t.left) == Height(t.right)
  }

  /** No red node has a red child. */
  ghost predicate Coloured(t: Tree) {
    t.Node? ==> Coloured(t.left) && Coloured(t.right) && (t.red ==> !IsRed(t.left) && !IsRed(t.right))
  }

  ghost predicate RedBlackTree(t: Tree) {
    Ordered(t) && Balanced(t) && Coloured(t) && !IsRed(t)
  }

  /** As Coloured, but the root may be red with one red child. */
  ghost predicate NearlyColoured(t: Tree) {
    t.Node? ==> Coloured(t.left) && Coloured(t.right) && !(t.red && IsRed(t.left) && IsRed(t.right))
  }

  lemma Parts(t: Tree, side: Side)
    requires t.Node?
    ensures t == Make(side, Near(t, side), t.elem, t.red, Far(t, side))
  {
  }

  lemma MadeShape(side: Side, near: Tree, elem: Elem, red: bool, far: Tree)
    ensures var t := Make(side, near, elem, red, far);
            && (Balanced(t) <==> Balanced(near) && Balanced(far) && Height(near) == Height(far))
            && (Height(near) == Height(far) ==> Height(t) == Height(near) + if red then 0 else 1)
            && (Coloured(t) <==> Coloured(near) && Coloured(far) && (red ==> !IsRed(near) && !IsRed(far)))
  {
  }

  lemma MadeOrder(side: Side, near: Tree, elem: Elem, red: bool, far: Tree)
    ensures var t := Make(side, near, elem, red, far);
            && Members(t) == Members(near) + {elem} + Members(far)
            && (Ordered(t) <==>
                  && Ordered(near) && Ordered(far)
                  && (forall x :: x in Members(near) ==> Precedes(side, x, elem))
                  && (forall x :: x in Members(far) ==> Precedes(side, elem, x)))
  {
  }

  /** A single rotation: (n e m) f o becomes n e (m f o). */
  lemma Rotated(side: Side, n: Tree, e: Elem, c1: bool, m: Tree, f: Elem, c2: bool, o: Tree, c3: bool, c4: bool)
    ensures var t := Make(side, Make(side, n, e, c1, m), f, c2, o);
            var r := Make(side, n, e, c3, Make(side, m, f, c4, o));
            Members(r) == Members(t) && (Ordered(r) <==> Ordered(t))
  {
    MadeOrder(side, n, e, c1, m);
    MadeOrder(side, Make(side, n, e, c1, m), f, c2, o);
    MadeOrder(side, m, f, c4, o);
    MadeOrder(side, n, e, c3, Make(side, m, f, c4, o));
    var t := Make(side, Make(side, n, e, c1, m), f, c2, o);
    var r := Make(side, n, e, c3, Make(side, m, f, c4, o));
    if Ordered(t) || Ordered(r) {
      assert e in Members(Make(side, n, e, c1, m)) && f in Members(Make(side, m, f, c4, o));
      assert Precedes(side, e, f);
      assert forall x :: x in Members(m) ==>
        x in Members(Make(side, n, e, c1, m)) && x in Members(Make(side, m, f, c4, o));
    }
  }

  /** Recolouring a node changes neither its order nor its members. */
  lemma Recoloured(t: Tree)
    ensures Members(Black(t)) == Members(t) == Members(Red(t))
    ensures (Ordered(Black(t)) <==> Ordered(t)) && (Ordered(Red(t)) <==> Ordered(t))
  {
  }

  // ----- insertion

  /** SGLIB___RBTREE_FIX_INSERTION_DISCREPANCY, with `side` for the parameter leftt. */
  function FixInsertion(side: Side, t: Tree): Tree
    requires t.Node? && Near(t, side).Node?
  {
    var tl, far := Near(t, side), Far(t, side);
    if IsRed(far) then
      if tl.red && (IsRed(Near(tl, side)) || IsRed(Far(tl, side)))
      then Make(side, Black(tl), t.elem, true, Black(far))
      else t
    else if tl.red then
      if IsRed(Near(tl, side)) then
        Make(side, Near(tl, side), tl.elem, false, Make(side, Far(tl, side), t.elem, true, far))
      else if IsRed(Far(tl, side)) then
        var c := Far(tl, side);
        Make(side, Make(side, Near(tl, side), tl.elem, tl.red, Near(c, side)), c.elem, false,
                   Make(side, Far(c, side), t.elem, true, far))
      else t
    else t
  }

  /** sglib___*_add_recursive. */
  function AddRecursive(t: Tree, e: Elem): (r: Tree)
    ensures r.Node?
  {
    if t.Leaf? then Node(Leaf, e, true, Leaf)
    else if Before(e, t.elem) then
      var n := Node(AddRecursive(t.left, e), t.elem, t.red, t.right);
      if t.red then n else FixInsertion(Left, n)
    else
      var n := Node(t.left, t.elem, t.red, AddRecursive(t.right, e));
      if t.red then n else FixInsertion(Right, n)
  }

  /** sglib_*_add. */
  function Add(t: Tree, e: Elem): Tree {
    Black(AddRecursive(t, e))
  }

  lemma FixInsertionShape(side: Side, t: Tree)
    requires t.Node? && !t.red && Near(t, side).Node?
    requires Balanced(t) && Coloured(Far(t, side)) && NearlyColoured(Near(t, side))
    ensures var r := FixInsertion(side, t); Balanced(r) && Height(r) == Height(t) && Coloured(r)
  {
    var tl, far := Near(t, side), Far(t, side);
    var n, m := Near(tl, side), Far(tl, side);
    MadeShape(side, tl, t.elem, t.red, far);
    MadeShape(side, n, tl.elem, tl.red, m);
    if tl.red && !IsRed(far) {
      if IsRed(n) {
        MadeShape(side, m, t.elem, true, far);
        MadeShape(side, n, tl.elem, false, Make(side, m, t.elem, true, far));
      } else if IsRed(m) {
        MadeShape(side, Near(m, side), m.elem, m.red, Far(m, side));
        var x := Make(side, n, tl.elem, tl.red, Near(m, side));
        var y := Make(side, Far(m, side), t.elem, true, far);
        MadeShape(side, n, tl.elem, tl.red, Near(m, side));
        MadeShape(side, Far(m, side), t.elem, true, far);
        MadeShape(side, x, m.elem, false, y);
      }
    } else {
      MadeShape(side, Black(tl), t.elem, true, Black(far));
    }
  }

  lemma FixInsertionOrder(side: Side, t: Tree)
    requires t.Node? && Near(t, side).Node?
    ensures var r := FixInsertion(side, t); Members(r) == Members(t) && (Ordered(t) ==> Ordered(r))
  {
    var tl, far := Near(t, side), Far(t, side);
    var n, m := Near(tl, side), Far(tl, side);
    Parts(t, side);
    Parts(tl, side);
    if IsRed(far) {
      Recoloured(tl);
      Recoloured(far);
      MadeOrder(side, tl, t.elem, t.red, far);
      MadeOrder(side, Black(tl), t.elem, true, Black(far));
    } else if tl.red && IsRed(n) {
      Rotated(side, n, tl.elem, tl.red, m, t.elem, t.red, far, false, true);
    } else if tl.red && IsRed(m) {
      Parts(m, side);
      DoublyRotated(side, n, tl.elem, tl.red, Near(m, side), m.elem, m.red, Far(m, side), t.elem, t.red, far,
                    tl.red, false, true);
    }
  }

  /** A double rotation: (n e (p g q)) f o becomes (n e p) g (q f o). */
  lemma DoublyRotated(side: Side, n: Tree, e: Elem, c1: bool, p: Tree, g: Elem, c2: bool, q: Tree, f: Elem, c3: bool,
                      o: Tree, c4: bool, c5: bool, c6: bool)
    ensures var t := Make(side, Make(side, n, e, c1, Make(side, p, g, c2, q)), f, c3, o);
            var r := Make(side, Make(side, n, e, c4, p), g, c5, Make(side, q, f, c6, o));
            Members(r) == Members(t) && (Ordered(r) <==> Ordered(t))
  {
    Rotated(side, n, e, c4, p, g, c2, q, c1, c2);
    Replaced(side, Make(side, n, e, c1, Make(side, p, g, c2, q)), Make(side, Make(side, n, e, c4, p), g, c2, q),
             f, c3, o);
    Rotated(side, Make(side, n, e, c4, p), g, c2, q, f, c3, o, c5, c6);
  }

  /** A subtree may be replaced by one with the same members. */
  lemma Replaced(side: Side, x: Tree, y: Tree, f: Elem, c: bool, o: Tree)
    requires Members(x) == Members(y) && (Ordered(x) <==> Ordered(y))
    ensures Members(Make(side, x, f, c, o)) == Members(Make(side, y, f, c, o))
    ensures Ordered(Make(side, x, f, c, o)) <==> Ordered(Make(side, y, f, c, o))
  {
    MadeOrder(side, x, f, c, o);
    MadeOrder(side, y, f, c, o);
  }

  lemma {:induction false} AddShape(t: Tree, e: Elem)
    requires Balanced(t) && Coloured(t)
    ensures var r := AddRecursive(t, e);
            Balanced(r) && Height(r) == Height(t) && NearlyColoured(r) && (!IsRed(t) ==> Coloured(r))
  {
    if t.Node? {
      if Before(e, t.elem) {
        AddShape(t.left, e);
        if !t.red {
          FixInsertionShape(Left, Node(AddRecursive(t.left, e), t.elem, t.red, t.right));
        }
      } else {
        AddShape(t.right, e);
        if !t.red {
          FixInsertionShape(Right, Node(t.left, t.elem, t.red, AddRecursive(t.right, e)));
        }
      }
    }
  }

  lemma {:induction false} AddOrder(t: Tree, e: Elem)
    requires Ordered(t) && e !in Members(t)
    ensures var r := AddRecursive(t, e); Ordered(r) && Members(r) == Members(t) + {e}
  {
    if t.Node? {
      if Before(e, t.elem) {
        AddOrder(t.left, e);
        var n := Node(AddRecursive(t.left, e), t.elem, t.red, t.right);
        LeftReplaced(t, AddRecursive(t.left, e), e);
        FixInsertionOrder(Left, n);
      } else {
        AddOrder(t.right, e);
        var n := Node(t.left, t.elem, t.red, AddRecursive(t.right, e));
        RightReplaced(t, AddRecursive(t.right, e), e);
        FixInsertionOrder(Right, n);
      }
    }
  }

  lemma LeftReplaced(t: Tree, l: Tree, e: Elem)
    requires t.Node? && Ordered(t) && Before(e, t.elem) && Ordered(l) && Members(l) == Members(t.left) + {e}
    ensures var n := Node(l, t.elem, t.red, t.right); Ordered(n) && Members(n) == Members(t) + {e}
  {
  }

  lemma RightReplaced(t: Tree, r: Tree, e: Elem)
    requires t.Node? && Ordered(t) && Before(t.elem, e) && Ordered(r) && Members(r) == Members(t.right) + {e}
    ensures var n := Node(t.left, t.elem, t.red, r); Ordered(n) && Members(n) == Members(t) + {e}
  {
  }

  lemma AddKeeps(t: Tree, e: Elem)
    requires RedBlackTree(t) && e !in Members(t)
    ensures RedBlackTree(Add(t, e)) && Members(Add(t, e)) == Members(t) + {e}
  {
    AddShape(t, e);
    AddOrder(t, e);
  }

  // ----- deletion

  /** SGLIB___RBTREE_FIX_DELETION_DISCREPANCY, with `side` for the parameter leftt: the far subtree of t has lost
      one level of black nodes.  Also returns whether the whole tree has. */
  function FixDeletion(side: Side, t: Tree): (Tree, bool)
    requires t.Node?
  {
    var b, ar := Near(t, side), Far(t, side);
    if b.Leaf? then (Black(t), false)
    else
      var bl, br := Near(b, side), Far(b, side);
      if b.red then
        if br.Leaf? then
          (Make(side, bl, b.elem, false, Make(side, br, t.elem, t.red, ar)), false)
        else
          var cl, cr := Near(br, side), Far(br, side);
          if !IsRed(cl) && !IsRed(cr) then
            (Make(side, bl, b.elem, false, Make(side, Red(br), t.elem, t.red, ar)), false)
          else if IsRed(cr) then
            (Make(side, Make(side, bl, b.elem, b.red, Make(side, cl, br.elem, br.red, Near(cr, side))), cr.elem, false,
                        Make(side, Far(cr, side), t.elem, t.red, ar)), false)
          else
            (Make(side, Make(side, bl, b.elem, b.red, Black(cl)), br.elem, br.red,
                        Make(side, cr, t.elem, t.red, ar)), false)
      else if !IsRed(bl) && !IsRed(br) then
        (Make(side, Red(b), t.elem, false, ar), !t.red)
      else if IsRed(br) then
        (Make(side, Make(side, bl, b.elem, b.red, Near(br, side)), br.elem, t.red,
                    Make(side, Far(br, side), t.elem, false, ar)), false)
      else
        (Make(side, Black(bl), b.elem, t.red, Make(side, br, t.elem, false, ar)), false)
  }

  /** sglib___*_delete_rightmost_leaf: the rest of the tree, the element, and whether the tree has lost a level. */
  function DeleteRightmost(t: Tree): (Tree, Elem, bool)
    requires t.Node?
  {
    if t.right.Leaf? then
      if t.left.Node? then (Black(t.left), t.elem, !t.red && !t.left.red) else (Leaf, t.elem, !t.red)
    else
      var (r, leaf, decreased) := DeleteRightmost(t.right);
      var n := Node(t.left, t.elem, t.red, r);
      if decreased then
        var (f, res) := FixDeletion(Left, n);
        (f, leaf, res)
      else (n, leaf, false)
  }

  /** sglib___*_delete_recursive. */
  function DeleteRecursive(t: Tree, e: Elem): (Tree, bool)
    requires Ordered(t) && e in Members(t)
  {
    if Before(e, t.elem) then
      assert e !in Members(t.right);
      var (l, decreased) := DeleteRecursive(t.left, e);
      var n := Node(l, t.elem, t.red, t.right);
      if decreased then FixDeletion(Right, n) else (n, false)
    else if Before(t.elem, e) then
      assert e !in Members(t.left);
      var (r, decreased) := DeleteRecursive(t.right, e);
      var n := Node(t.left, t.elem, t.red, r);
      if decreased then FixDeletion(Left, n) else (n, false)
    else if t.left.Leaf? then
      if t.right.Leaf? then (Leaf, !t.red) else (Black(t.right), !t.red && !t.right.red)
    else
      var (l, leaf, decreased) := DeleteRightmost(t.left);
      var n := Node(l, leaf, t.red, t.right);
      if decreased then FixDeletion(Right, n) else (n, false)
  }

  /** sglib_*_delete. */
  function Delete(t: Tree, e: Elem): Tree
    requires Ordered(t) && e in Members(t)
  {
    Black(DeleteRecursive(t, e).0)
  }

  /** The far subtree of t is one level of black nodes short. */
  ghost predicate Short(side: Side, t: Tree) {
    && t.Node? && Balanced(Near(t, side)) && Balanced(Far(t, side)) && Height(Near(t, side)) == Height(Far(t, side)) + 1
    && Coloured(Near(t, side)) && Coloured(Far(t, side)) && (t.red ==> !IsRed(Near(t, side)) && !IsRed(Far(t, side)))
  }

  /** The height that a short tree had before. */
  ghost function FullHeight(side: Side, t: Tree): nat
    requires t.Node?
  {
    Height(Near(t, side)) + if t.red then 0 else 1
  }

  lemma FixDeletionShape(side: Side, t: Tree)
    requires Short(side, t)
    ensures var (r, decreased) := FixDeletion(side, t);
            && Balanced(r) && Coloured(r) && (!t.red ==> !IsRed(r))
            && Height(r) == FullHeight(side, t) - if decreased then 1 else 0
  {
    var b, ar := Near(t, side), Far(t, side);
    var bl, br := Near(b, side), Far(b, side);
    MadeShape(side, bl, b.elem, b.red, br);
    if b.red {
      RedSibling(side, t);
    } else if !IsRed(bl) && !IsRed(br) {
      MadeShape(side, bl, b.elem, true, br);
      MadeShape(side, Red(b), t.elem, false, ar);
    } else if IsRed(br) {
      MadeShape(side, Near(br, side), br.elem, br.red, Far(br, side));
      MadeShape(side, bl, b.elem, b.red, Near(br, side));
      MadeShape(side, Far(br, side), t.elem, false, ar);
      MadeShape(side, Make(side, bl, b.elem, b.red, Near(br, side)), br.elem, t.red,
                Make(side, Far(br, side), t.elem, false, ar));
    } else {
      BlackShape(bl);
      MadeShape(side, br, t.elem, false, ar);
      MadeShape(side, Black(bl), b.elem, t.red, Make(side, br, t.elem, false, ar));
    }
  }

  lemma BlackShape(t: Tree)
    requires Balanced(t) && Coloured(t)
    ensures Balanced(Black(t)) && Coloured(Black(t)) && Height(Black(t)) == Height(t) + if IsRed(t) then 1 else 0
  {
  }

  lemma RedSibling(side: Side, t: Tree)
    requires Short(side, t) && IsRed(Near(t, side))
    ensures var (r, decreased) := FixDeletion(side, t);
            Balanced(r) && Coloured(r) && !IsRed(r) && Height(r) == FullHeight(side, t) && !decreased
  {
    var b, ar := Near(t, side), Far(t, side);
    var bl, c := Near(b, side), Far(b, side);
    MadeShape(side, bl, b.elem, b.red, c);
    assert c.Node? && !c.red;
    var cl, cr := Near(c, side), Far(c, side);
    MadeShape(side, cl, c.elem, c.red, cr);
    if !IsRed(cl) && !IsRed(cr) {
      MadeShape(side, cl, c.elem, true, cr);
      MadeShape(side, Red(c), t.elem, t.red, ar);
      MadeShape(side, bl, b.elem, false, Make(side, Red(c), t.elem, t.red, ar));
    } else if IsRed(cr) {
      MadeShape(side, Near(cr, side), cr.elem, cr.red, Far(cr, side));
      var x := Make(side, cl, c.elem, c.red, Near(cr, side));
      var y := Make(side, bl, b.elem, b.red, x);
      var z := Make(side, Far(cr, side), t.elem, t.red, ar);
      MadeShape(side, cl, c.elem, c.red, Near(cr, side));
      MadeShape(side, bl, b.elem, b.red, x);
      MadeShape(side, Far(cr, side), t.elem, t.red, ar);
      MadeShape(side, y, cr.elem, false, z);
    } else {
      BlackShape(cl);
      MadeShape(side, bl, b.elem, b.red, Black(cl));
      MadeShape(side, cr, t.elem, t.red, ar);
      MadeShape(side, Make(side, bl, b.elem, b.red, Black(cl)), c.elem, c.red, Make(side, cr, t.elem, t.red, ar));
    }
  }

  lemma FixDeletionOrder(side: Side, t: Tree)
    requires t.Node?
    ensures var (r, decreased) := FixDeletion(side, t); Members(r) == Members(t) && (Ordered(t) ==> Ordered(r))
  {
    var b, ar := Near(t, side), Far(t, side);
    Parts(t, side);
    if b.Leaf? {
      Recoloured(t);
      return;
    }
    Parts(b, side);
    var bl, br := Near(b, side), Far(b, side);
    if !b.red && !IsRed(bl) && !IsRed(br) {
      Recoloured(b);
      Replaced(side, b, Red(b), t.elem, t.red, ar);
      Repainted(side, Red(b), t.elem, t.red, ar, false);
    } else if !b.red && IsRed(br) {
      Parts(br, side);
      DoublyRotated(side, bl, b.elem, b.red, Near(br, side), br.elem, br.red, Far(br, side), t.elem, t.red, ar,
                    b.red, t.red, false);
    } else if !b.red {
      Recoloured(bl);
      Rotated(side, bl, b.elem, b.red, br, t.elem, t.red, ar, t.red, false);
      Replaced(side, bl, Black(bl), b.elem, t.red, Make(side, br, t.elem, false, ar));
    } else {
      RedSiblingOrder(side, t);
    }
  }

  /** The colour of the root does not matter to the order. */
  lemma Repainted(side: Side, n: Tree, e: Elem, c: bool, o: Tree, c': bool)
    ensures Members(Make(side, n, e, c, o)) == Members(Make(side, n, e, c', o))
    ensures Ordered(Make(side, n, e, c, o)) <==> Ordered(Make(side, n, e, c', o))
  {
  }

  lemma ReplacedFar(side: Side, n: Tree, f: Elem, c: bool, x: Tree, y: Tree)
    requires Members(x) == Members(y) && (Ordered(x) <==> Ordered(y))
    ensures Members(Make(side, n, f, c, x)) == Members(Make(side, n, f, c, y))
    ensures Ordered(Make(side, n, f, c, x)) <==> Ordered(Make(side, n, f, c, y))
  {
    Replaced(Opposite(side), x, y, f, c, n);
  }

  lemma RedSiblingOrder(side: Side, t: Tree)
    requires t.Node? && IsRed(Near(t, side))
    ensures var (r, decreased) := FixDeletion(side, t); Members(r) == Members(t) && (Ordered(t) ==> Ordered(r))
  {
    var b, ar := Near(t, side), Far(t, side);
    var bl, c := Near(b, side), Far(b, side);
    Parts(t, side);
    Parts(b, side);
    if c.Leaf? || (!IsRed(Near(c, side)) && !IsRed(Far(c, side))) {
      Rotated(side, bl, b.elem, b.red, c, t.elem, t.red, ar, false, t.red);
      Recoloured(c);
      Replaced(side, c, Red(c), t.elem, t.red, ar);
      ReplacedFar(side, bl, b.elem, false, Make(side, c, t.elem, t.red, ar), Make(side, Red(c), t.elem, t.red, ar));
      return;
    }
    Parts(c, side);
    var cl, cr := Near(c, side), Far(c, side);
    if IsRed(cr) {
      Parts(cr, side);
      var dl, dr := Near(cr, side), Far(cr, side);
      var x := Make(side, Make(side, cl, c.elem, c.red, dl), cr.elem, cr.red, dr);
      Rotated(side, cl, c.elem, c.red, dl, cr.elem, cr.red, dr, c.red, cr.red);
      ReplacedFar(side, bl, b.elem, b.red, c, x);
      Replaced(side, b, Make(side, bl, b.elem, b.red, x), t.elem, t.red, ar);
      DoublyRotated(side, bl, b.elem, b.red, Make(side, cl, c.elem, c.red, dl), cr.elem, cr.red, dr, t.elem, t.red, ar,
                    b.red, false, t.red);
    } else {
      DoublyRotated(side, bl, b.elem, b.red, cl, c.elem, c.red, cr, t.elem, t.red, ar, b.red, c.red, t.red);
      Recoloured(cl);
      ReplacedFar(side, bl, b.elem, b.red, cl, Black(cl));
      Replaced(side, Make(side, bl, b.elem, b.red, cl), Make(side, bl, b.elem, b.red, Black(cl)), c.elem, c.red,
               Make(side, cr, t.elem, t.red, ar));
    }
  }

  /** The tree has lost a level of black nodes exactly if `decreased` says so. */
  ghost predicate Reduced(t: Tree, r: Tree, decreased: bool) {
    && Balanced(r) && Coloured(r) && (!IsRed(t) ==> !IsRed(r))
    && Height(r) == Height(t) - if decreased then 1 else 0
  }

  /** A deletion from the left subtree, with element x at the root afterwards. */
  lemma LeftReduced(t: Tree, l: Tree, x: Elem, decreased: bool)
    requires t.Node? && Balanced(t) && Coloured(t) && Reduced(t.left, l, decreased)
    ensures var n := Node(l, x, t.red, t.right);
            var (r, res) := if decreased then FixDeletion(Right, n) else (n, false);
            Reduced(t, r, res)
  {
    hide FixDeletion;
    if decreased {
      FixDeletionShape(Right, Node(l, x, t.red, t.right));
    }
  }

  /** A deletion from the right subtree. */
  lemma RightReduced(t: Tree, r: Tree, decreased: bool)
    requires t.Node? && Balanced(t) && Coloured(t) && Reduced(t.right, r, decreased)
    ensures var n := Node(t.left, t.elem, t.red, r);
            var (r', res) := if decreased then FixDeletion(Left, n) else (n, false);
            Reduced(t, r', res)
  {
    hide FixDeletion;
    if decreased {
      FixDeletionShape(Left, Node(t.left, t.elem, t.red, r));
    }
  }

  lemma {:induction false} DeleteRightmostShape(t: Tree)
    requires t.Node? && Balanced(t) && Coloured(t)
    ensures var (r, leaf, decreased) := DeleteRightmost(t); Reduced(t, r, decreased)
  {
    hide FixDeletion;
    if t.right.Node? {
      DeleteRightmostShape(t.right);
      var (r, leaf, decreased) := DeleteRightmost(t.right);
      RightReduced(t, r, decreased);
    } else if t.left.Node? {
      BlackShape(t.left);
    }
  }

  lemma {:induction false} DeleteRightmostOrder(t: Tree)
    requires t.Node? && Ordered(t)
    ensures var (r, leaf, decreased) := DeleteRightmost(t);
            && Ordered(r) && leaf in Members(t) && Members(r) == Members(t) - {leaf}
            && forall x :: x in Members(r) ==> Before(x, leaf)
  {
    if t.right.Node? {
      DeleteRightmostOrder(t.right);
      var (r, leaf, decreased) := DeleteRightmost(t.right);
      var n := Node(t.left, t.elem, t.red, r);
      FixDeletionOrder(Left, n);
      NotAmong(t.left, leaf);
      assert Before(t.elem, leaf);
    } else {
      Recoloured(t.left);
      assert t.elem !in Members(t.left);
    }
  }

  lemma {:induction false} DeleteShape(t: Tree, e: Elem)
    requires Ordered(t) && e in Members(t) && Balanced(t) && Coloured(t)
    ensures var (r, decreased) := DeleteRecursive(t, e); Reduced(t, r, decreased)
  {
    hide FixDeletion;
    if Before(e, t.elem) {
      assert e !in Members(t.right);
      DeleteShape(t.left, e);
      var (l, decreased) := DeleteRecursive(t.left, e);
      LeftReduced(t, l, t.elem, decreased);
    } else if Before(t.elem, e) {
      assert e !in Members(t.left);
      DeleteShape(t.right, e);
      var (r, decreased) := DeleteRecursive(t.right, e);
      RightReduced(t, r, decreased);
    } else if t.left.Node? {
      DeleteRightmostShape(t.left);
      var (l, leaf, decreased) := DeleteRightmost(t.left);
      LeftReduced(t, l, leaf, decreased);
    } else if t.right.Node? {
      BlackShape(t.right);
    }
  }

  lemma {:induction false} DeleteOrder(t: Tree, e: Elem)
    requires Ordered(t) && e in Members(t)
    ensures var (r, decreased) := DeleteRecursive(t, e); Ordered(r) && Members(r) == Members(t) - {e}
  {
    if Before(e, t.elem) {
      assert e !in Members(t.right);
      DeleteOrder(t.left, e);
      FixDeletionOrder(Right, Node(DeleteRecursive(t.left, e).0, t.elem, t.red, t.right));
    } else if Before(t.elem, e) {
      assert e !in Members(t.left);
      DeleteOrder(t.right, e);
      FixDeletionOrder(Left, Node(t.left, t.elem, t.red, DeleteRecursive(t.right, e).0));
    } else if t.left.Node? {
      DeleteRightmostOrder(t.left);
      var (l, leaf, decreased) := DeleteRightmost(t.left);
      FixDeletionOrder(Right, Node(l, leaf, t.red, t.right));
      RootReplaced(t, l, leaf);
    } else {
      Recoloured(t.right);
      assert e !in Members(t.right);
    }
  }

  lemma NotAmong(t: Tree, x: Elem)
    requires forall y :: y in Members(t) ==> Before(y, x)
    ensures x !in Members(t)
  {
  }

  /** The predecessor of the root takes its place. */
  lemma RootReplaced(t: Tree, l: Tree, leaf: Elem)
    requires t.Node? && Ordered(t) && Ordered(l) && leaf in Members(t.left) && Members(l) == Members(t.left) - {leaf}
    requires forall x :: x in Members(l) ==> Before(x, leaf)
    ensures Ordered(Node(l, leaf, t.red, t.right)) && Members(Node(l, leaf, t.red, t.right)) == Members(t) - {t.elem}
  {
    assert Before(leaf, t.elem);
    assert t.elem !in Members(t.left) && t.elem !in Members(t.right);
  }

  lemma DeleteKeeps(t: Tree, e: Elem)
    requires RedBlackTree(t) && e in Members(t)
    ensures RedBlackTree(Delete(t, e)) && Members(Delete(t, e)) == Members(t) - {e}
  {
    DeleteShape(t, e);
    DeleteOrder(t, e);
  }

  // ----- what the shape is for

  ghost function Depth(t: Tree): nat {
    if t.Leaf? then 0 else 1 + if Depth(t.left) > Depth(t.right) then Depth(t.left) else Depth(t.right)
  }

  ghost function Size(t: Tree): nat {
    if t.Leaf? then 0 else Size(t.left) + 1 + Size(t.right)
  }

  /** The depth of a red-black tree is at most twice the logarithm of its size. */
  lemma {:induction false} DepthIsLogarithmic(t: Tree)
    requires Balanced(t) && Coloured(t)
    ensures Depth(t) <= 2 * Height(t) + (if IsRed(t) then 1 else 0) && Power(Height(t)) <= Size(t) + 1
  {
    if t.Node? {
      DepthIsLogarithmic(t.left);
      DepthIsLogarithmic(t.right);
    }
  }
}
