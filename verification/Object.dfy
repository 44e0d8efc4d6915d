/**
 * Descriptor-driven objects: storage, defaults, initialisation, the default test, and the fields an
 * object is encoded to. Objects are trees of cells; a cell is a member's bytes with its companion length.
 */
module Object {
  import opened Bytes
  import opened Varint
  import opened Wire
  import opened Decoder

  // ---------------------------------------------------------------- descriptors

  /** A member's type. `len` is the byte width of its companion length member, 0 for none. */
  datatype Kind =
    | KInt(num: Num, width: Width)
    | KFloat(fp64: bool)
    | KText(size: nat)
    | KBlob(cap: nat, len: nat)
    | KInts(num: Num, width: Width, cap: nat, len: nat)
    | KFloats(fp64: bool, cap: nat, len: nat)
    | KNested(descr: Descr)

  datatype FieldDescr = FieldDescr(id: nat, offset: nat, kind: Kind)

  /** A holder is a wrapper array whose fields are its slots; `len` is the width of its element count, 0 for none. */
  datatype Form = Struct | Holder(len: nat) | Union

  /** A default image: its byte extent (0 for the whole object), its leading tag, and the cell at each field's offset. */
  datatype Image = Image(extent: nat, tag: nat, cells: seq<Obj>)

  datatype Descr = Descr(form: Form, fields: seq<FieldDescr>, image: Option<Image>)

  /** Storage. `aux` is a holder's element count or a union's tag; a union keeps a cell for every option. */
  datatype Obj = Cell(used: nat, buf: seq<byte>) | Node(aux: nat, kids: seq<Obj>)

  /** sizeof the member of a leaf kind. */
  function SizeOfKind(k: Kind): nat
  {
    match k
    case KInt(_, w) => w
    case KFloat(fp64) => FloatWidth(fp64)
    case KText(size) => size
    case KBlob(cap, _) => cap
    case KInts(_, w, cap, _) => cap * w
    case KFloats(fp64, cap, _) => cap * FloatWidth(fp64)
    case KNested(_) => 0
  }

  /** Width of the companion length of a leaf kind, 0 for none. */
  function LenWidth(k: Kind): nat
  {
    match k
    case KBlob(_, len) => len
    case KInts(_, _, _, len) => len
    case KFloats(_, _, len) => len
    case _ => 0
  }

  function Capacity(k: Kind): nat
  {
    match k
    case KBlob(cap, _) => cap
    case KInts(_, _, cap, _) => cap
    case KFloats(_, cap, _) => cap
    case _ => 0
  }

  function ElemWidth(k: Kind): nat
  {
    match k
    case KInts(_, w, _, _) => w
    case KFloats(fp64, _, _) => FloatWidth(fp64)
    case _ => 1
  }

  /** The wire type and subtype a kind is read as. */
  function ExpectedOf(k: Kind): nat
  {
    match k
    case KInt(num, _) => if num.Signed? then SIGNED else UNSIGNED
    case KFloat(fp64) => FIXLEN + 8 * (if fp64 then FP64 else FP32)
    case KText(_) => FIXLEN + 8 * STRING
    case KBlob(_, _) => FIXLEN + 8 * BLOB
    case KInts(num, _, _, _) => if num.Signed? then ARRAY_SIGNED else ARRAY_UNSIGNED
    case KFloats(fp64, _, _) => ARRAY_FIXLEN + 8 * (if fp64 then FP64 else FP32)
    case KNested(_) => BEGIN
  }

  /** What a companion member of w bytes keeps of a length. */
  function StoreLen(v: nat, w: nat): nat
  {
    v % Span(w)
  }

  // ---------------------------------------------------------------- shapes

  /** o is storage laid out as the member of kind k, or the object of descriptor d. */
  ghost predicate ShapeField(k: Kind, o: Obj)
    decreases k
  {
    match k
    case KNested(d) => Shape(d, o)
    case _ => o.Cell? && |o.buf| == SizeOfKind(k)
  }

  ghost predicate Shape(d: Descr, o: Obj)
    decreases d
  {
    HasMembers(d, o) && forall i :: 0 <= i < |d.fields| ==> ShapeField(d.fields[i].kind, o.kids[i])
  }

  /** o has one place for each declared member. */
  predicate HasMembers(d: Descr, o: Obj)
  {
    o.Node? && |o.kids| == |d.fields|
  }

  // ---------------------------------------------------------------- defaults

  /** Tag of a union's default option: the image's, or 0 without one. */
  function DefaultTag(d: Descr): nat
  {
    if d.image.Some? then d.image.value.tag else 0
  }

  /** The image cell of field i, when the image reaches that far. */
  function FieldDefault(d: Descr, i: nat): Option<Obj>
    requires i < |d.fields|
  {
    match d.image
    case None => None
    case Some(image) =>
      var f := d.fields[i];
      if image.extent != 0 && f.offset + SizeOfKind(f.kind) > image.extent then None
      else if i < |image.cells| && image.cells[i].Cell? then Some(image.cells[i])
      else None
  }

  predicate NotHeld(d: Descr, aux: nat, i: nat)
    requires i < |d.fields|
  {
    d.form.Union? && aux != d.fields[i].id
  }

  // ---------------------------------------------------------------- initialisation

  /** A leaf member reset to its default, or to zero. */
  function ResetCell(k: Kind, default: Option<Obj>, o: Obj): Obj
  {
    match (o, default)
    case (Cell(used, _), Some(Cell(dused, dbuf))) => Cell(if LenWidth(k) != 0 then StoreLen(dused, LenWidth(k)) else used, dbuf)
    case (Cell(used, _), _) => Cell(if LenWidth(k) != 0 then 0 else used, Zeros(SizeOfKind(k)))
    case _ => o
  }

  /** A union's tag and a sized holder's count after a reset. */
  function ResetAux(d: Descr, aux: nat): nat
  {
    if d.form.Union? then DefaultTag(d) else if d.form.Holder? && d.form.len != 0 then 0 else aux
  }

  function ResetField(d: Descr, i: nat, o: Obj): Obj
    requires i < |d.fields|
    decreases d, 0
  {
    match d.fields[i].kind
    case KNested(nd) => Reset(nd, o)
    case k => ResetCell(k, FieldDefault(d, i), o)
  }

  /** sofab_object_init over the storage o: a union resets its tag and that one option only. */
  function Reset(d: Descr, o: Obj): Obj
    decreases d, 1
  {
    match o
    case Cell(_, _) => o
    case Node(aux, kids) =>
      var aux' := ResetAux(d, aux);
      Node(aux', seq(|kids|, i requires 0 <= i < |kids| =>
        if i >= |d.fields| || NotHeld(d, aux', i) then kids[i] else ResetField(d, i, kids[i])))
  }

  lemma {:induction false} ResetKids(d: Descr, o: Obj)
    requires HasMembers(d, o)
    ensures var r, aux := Reset(d, o), ResetAux(d, o.aux);
      && r.Node? && r.aux == aux && |r.kids| == |o.kids|
      && forall i :: 0 <= i < |d.fields| ==>
           r.kids[i] == if NotHeld(d, aux, i) then o.kids[i] else ResetField(d, i, o.kids[i])
  {
    hide ResetField;
  }

  // ---------------------------------------------------------------- logical values

  /** A C string's bytes: up to its first zero, or all of it. */
  function CStr(buf: seq<byte>): (s: seq<byte>)
    ensures |s| <= |buf| && s == buf[..|s|]
    ensures |s| < |buf| ==> buf[|s|] == 0
    ensures forall i :: 0 <= i < |s| ==> s[i] != 0
  {
    if buf == [] || buf[0] == 0 then [] else [buf[0]] + CStr(buf[1..])
  }

  /** Elements a leaf member holds: its companion length clamped to the capacity, or the capacity. */
  function UsedOf(k: Kind, o: Obj): nat
  {
    if o.Cell? && LenWidth(k) != 0 && o.used < Capacity(k) then o.used else Capacity(k)
  }

  /** Slots a holder's value occupies. */
  function SeqLen(d: Descr, o: Obj): (n: nat)
    ensures n <= |d.fields|
  {
    if d.form.Holder? && d.form.len != 0 && o.Node? && o.aux < |d.fields| then o.aux else |d.fields|
  }

  /** Index of the first field with this id, or the field count. */
  function Find(fields: seq<FieldDescr>, id: nat): (i: nat)
    ensures i <= |fields|
    ensures i < |fields| ==> fields[i].id == id
    ensures forall j :: 0 <= j < i ==> fields[j].id != id
  {
    if fields == [] then 0 else if fields[0].id == id then 0 else 1 + Find(fields[1..], id)
  }

  datatype View = VLeaf(bytes: seq<byte>) | VNode(aux: nat, kids: seq<View>)

  function ViewCell(k: Kind, o: Obj): View
    requires ShapeField(k, o) && !k.KNested?
  {
    match k
    case KText(_) => VLeaf(CStr(o.buf))
    case KBlob(_, _) => VLeaf(o.buf[..UsedOf(k, o)])
    case KInts(_, w, cap, _) => MulLess(UsedOf(k, o), cap, w); VLeaf(o.buf[..UsedOf(k, o) * w])
    case KFloats(fp64, cap, _) => MulLess(UsedOf(k, o), cap, FloatWidth(fp64)); VLeaf(o.buf[..UsedOf(k, o) * FloatWidth(fp64)])
    case _ => VLeaf(o.buf)
  }

  ghost function ViewField(k: Kind, o: Obj): View
    requires ShapeField(k, o)
    decreases k
  {
    match k
    case KNested(d) => ViewOf(d, o)
    case _ => ViewCell(k, o)
  }

  /** The logical value: a struct's members, a holder's first elements, a union's tag and held option. */
  ghost function ViewOf(d: Descr, o: Obj): View
    requires Shape(d, o)
    decreases d
  {
    match d.form
    case Struct => VNode(0, seq(|d.fields|, i requires 0 <= i < |d.fields| => ViewField(d.fields[i].kind, o.kids[i])))
    case Holder(_) =>
      var n := SeqLen(d, o);
      VNode(n, seq(n, i requires 0 <= i < n => ViewField(d.fields[i].kind, o.kids[i])))
    case Union =>
      var i := Find(d.fields, o.aux);
      VNode(o.aux, if i < |d.fields| then [ViewField(d.fields[i].kind, o.kids[i])] else [])
  }

  // ---------------------------------------------------------------- the default test

  /** strncmp(a, b, n) == 0 on two members of n bytes. */
  predicate SameText(a: seq<byte>, b: seq<byte>)
    decreases |a|
  {
    if a == [] || b == [] then a == b
    else if a[0] != b[0] then false
    else a[0] == 0 || SameText(a[1..], b[1..])
  }

  predicate AllZero(bs: seq<byte>)
  {
    forall i :: 0 <= i < |bs| ==> bs[i] == 0
  }

  predicate CellIsDefault(k: Kind, default: Option<Obj>, o: Obj)
  {
    match (o, default)
    case (Cell(used, buf), Some(Cell(dused, dbuf))) =>
      if k.KText? then SameText(buf, dbuf)
      else if LenWidth(k) != 0 then
        var n := UsedOf(k, o);
        dused == n && n * ElemWidth(k) <= |buf| && n * ElemWidth(k) <= |dbuf|
        && buf[..n * ElemWidth(k)] == dbuf[..n * ElemWidth(k)]
      else buf == dbuf
    case (Cell(used, buf), _) =>
      if k.KText? then buf == [] || buf[0] == 0
      else if LenWidth(k) != 0 then UsedOf(k, o) == 0
      else AllZero(buf)
    case _ => true
  }

  /** _field_is_default for field i of o. */
  predicate FieldIsDefault(d: Descr, i: nat, o: Obj)
    requires i < |d.fields|
    decreases d, 0
  {
    if o.Cell? || i >= |o.kids| then true
    else if NotHeld(d, o.aux, i) then true
    else if d.form.Union? && d.fields[i].id != DefaultTag(d) then false
    else
      match d.fields[i].kind
      case KNested(nd) => IsDefault(nd, o.kids[i])
      case k => CellIsDefault(k, FieldDefault(d, i), o.kids[i])
  }

  /** The default test of a whole sub-object: a sized holder by its length, the others field by field. */
  predicate IsDefault(d: Descr, o: Obj)
    decreases d, 1
  {
    if d.form.Holder? && d.form.len != 0 then SeqLen(d, o) == 0
    else forall i :: 0 <= i < |d.fields| ==> FieldIsDefault(d, i, o)
  }

  // ---------------------------------------------------------------- encoding

  function EncodeCell(k: Kind, o: Obj): Value
    requires ShapeField(k, o) && !k.KNested?
  {
    match k
    case KInt(num, w) => Int(num.Signed?, WireWord(num.Signed?, w, o.buf))
    case KFloat(fp64) => Fixlen(if fp64 then FP64 else FP32, o.buf)
    case KText(_) => Fixlen(STRING, CStr(o.buf))
    case KBlob(_, _) => Fixlen(BLOB, o.buf[..UsedOf(k, o)])
    case KInts(num, w, cap, _) =>
      MulLess(UsedOf(k, o), cap, w);
      Ints(num.Signed?, WireWords(num.Signed?, w, o.buf, UsedOf(k, o)))
    case KFloats(fp64, cap, _) =>
      MulLess(UsedOf(k, o), cap, FloatWidth(fp64));
      Floats(fp64, o.buf[..UsedOf(k, o) * FloatWidth(fp64)])
  }

  ghost function EncodeField(f: FieldDescr, o: Obj): Field
    requires ShapeField(f.kind, o)
    decreases f, 0, 0
  {
    match f.kind
    case KNested(d) => Group(f.id, EncodeFrom(d, o, 0))
    case k => Leaf(f.id, EncodeCell(k, o))
  }

  /** Slots or fields the encoder walks. */
  function WalkCount(d: Descr, o: Obj): (n: nat)
    ensures n <= |d.fields|
  {
    if d.form.Holder? then SeqLen(d, o) else |d.fields|
  }

  /** The element that carries a holder's length is written whatever it holds. */
  predicate AlwaysWritten(d: Descr, o: Obj, i: nat)
  {
    d.form.Holder? && i + 1 == SeqLen(d, o)
  }

  /** The fields sofab_object_encode writes for fields i and up. */
  ghost function EncodeFrom(d: Descr, o: Obj, i: nat): seq<Field>
    requires Shape(d, o)
    decreases d, 1, |d.fields| - i
  {
    if i >= WalkCount(d, o) then []
    else if !AlwaysWritten(d, o, i) && FieldIsDefault(d, i, o) then EncodeFrom(d, o, i + 1)
    else [EncodeField(d.fields[i], o.kids[i])] + EncodeFrom(d, o, i + 1)
  }

  ghost function EncodeObj(d: Descr, o: Obj): seq<Field>
    requires Shape(d, o)
  {
    EncodeFrom(d, o, 0)
  }
}
