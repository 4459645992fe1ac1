/**
 * The class-name helpers of src/lib/ui-constants.ts: `cn`, which drops
 * falsy arguments and joins the rest with single spaces, and the two
 * helpers built on it, together with the constant-table entries they read.
 */
module UiConstants {

  /**
   * An argument of `cn`: a string, `false`, `null` or `undefined`; or a
   * nested constant table (an object), which `CONTAINER_WIDTHS.modal`
   * hands to it.
   */
  datatype ClassArg = Str(s: string) | False | Null | Undefined | Table

  /** `Boolean(arg)`: strings are truthy when non-empty, objects always. */
  predicate Truthy(a: ClassArg) {
    match a
    case Str(s) => s != ""
    case Table => true
    case _ => false
  }

  /** The text `Array.prototype.join` writes for an element. */
  function ClassText(a: ClassArg): string {
    match a
    case Str(s) => s
    case Table => "[object Object]"
    case False => "false"
    case _ => ""
  }

  /** `classes.filter(Boolean)`, as the texts join will write. */
  function Kept(classes: seq<ClassArg>): seq<string> {
    if classes == [] then []
    else (if Truthy(classes[0]) then [ClassText(classes[0])] else []) + Kept(classes[1..])
  }

  /** `parts.join(' ')` */
  function JoinWithSpaces(parts: seq<string>): string {
    if |parts| == 0 then ""
    else if |parts| == 1 then parts[0]
    else parts[0] + " " + JoinWithSpaces(parts[1..])
  }

  /** `cn(...classes)` */
  function Cn(classes: seq<ClassArg>): string {
    JoinWithSpaces(Kept(classes))
  }

  /** Two class strings put side by side, with one space between them when both are non-empty. */
  function Glue(a: string, b: string): string {
    if a == "" then b else if b == "" then a else a + " " + b
  }

  /** Every text the filter keeps is non-empty. */
  lemma {:induction false} KeptNonEmpty(classes: seq<ClassArg>)
    ensures forall i :: 0 <= i < |Kept(classes)| ==> Kept(classes)[i] != ""
    ensures |Kept(classes)| == 0 <==> forall i :: 0 <= i < |classes| ==> !Truthy(classes[i])
  {
    if classes != [] {
      KeptNonEmpty(classes[1..]);
      var head := if Truthy(classes[0]) then [ClassText(classes[0])] else [];
      assert Kept(classes) == head + Kept(classes[1..]);
      assert forall i :: 1 <= i < |classes| ==> classes[i] == classes[1..][i - 1];
    }
  }

  lemma {:induction false} KeptAppend(xs: seq<ClassArg>, ys: seq<ClassArg>)
    ensures Kept(xs + ys) == Kept(xs) + Kept(ys)
    decreases |xs|
  {
    if xs == [] {
      assert xs + ys == ys;
    } else {
      assert (xs + ys)[1..] == xs[1..] + ys;
      KeptAppend(xs[1..], ys);
    }
  }

  /** Joining two lists of non-empty parts is gluing their joins. */
  lemma {:induction false} JoinAppend(a: seq<string>, b: seq<string>)
    requires forall i :: 0 <= i < |a| ==> a[i] != ""
    requires forall i :: 0 <= i < |b| ==> b[i] != ""
    ensures JoinWithSpaces(a + b) == Glue(JoinWithSpaces(a), JoinWithSpaces(b))
    decreases |a|
  {
    if a == [] {
      assert a + b == b;
    } else if |a| == 1 {
      if b != [] {
        assert (a + b)[1..] == b;
        JoinNonEmpty(b);
      } else {
        assert a + b == a;
      }
    } else {
      assert (a + b)[1..] == a[1..] + b;
      JoinAppend(a[1..], b);
      JoinNonEmpty(a[1..]);
    }
  }

  /** The join of non-empty parts is empty only when there are no parts. */
  lemma {:induction false} JoinNonEmpty(a: seq<string>)
    requires forall i :: 0 <= i < |a| ==> a[i] != ""
    ensures JoinWithSpaces(a) == "" <==> a == []
  {
    if |a| >= 1 {
      assert |JoinWithSpaces(a)| >= |a[0]| > 0;
    }
  }

  /** `cn` returns `''` exactly when every argument is falsy (in particular with no arguments). */
  lemma CnEmpty(classes: seq<ClassArg>)
    ensures Cn(classes) == "" <==> forall i :: 0 <= i < |classes| ==> !Truthy(classes[i])
  {
    KeptNonEmpty(classes);
    JoinNonEmpty(Kept(classes));
  }

  /** One argument: its text when truthy, `''` otherwise. */
  lemma CnSingle(a: ClassArg)
    ensures Cn([a]) == if Truthy(a) then ClassText(a) else ""
  {
    assert [a][1..] == [];
    assert Kept([a]) == if Truthy(a) then [ClassText(a)] else [];
  }

  /**
   * `cn` over two argument lists is the glue of the two results: kept
   * arguments keep their order and are separated by exactly one space.
   */
  lemma CnAppend(xs: seq<ClassArg>, ys: seq<ClassArg>)
    ensures Cn(xs + ys) == Glue(Cn(xs), Cn(ys))
  {
    KeptAppend(xs, ys);
    KeptNonEmpty(xs);
    KeptNonEmpty(ys);
    JoinAppend(Kept(xs), Kept(ys));
  }

  /** Three arguments: each one's own result, glued in order. */
  lemma CnThree(x: ClassArg, y: ClassArg, z: ClassArg)
    ensures Cn([x, y, z]) == Glue(Cn([x]), Glue(Cn([y]), Cn([z])))
  {
    assert [x, y, z] == [x] + ([y] + [z]);
    CnAppend([x], [y] + [z]);
    CnAppend([y], [z]);
  }

  /** A falsy argument (`''`, `false`, `null`, `undefined`) leaves no trace in the result. */
  lemma CnSkipsFalsy(xs: seq<ClassArg>, a: ClassArg, ys: seq<ClassArg>)
    requires !Truthy(a)
    ensures Cn(xs + [a] + ys) == Cn(xs + ys)
  {
    CnAppend(xs + [a], ys);
    CnAppend(xs, [a]);
    CnSingle(a);
    CnAppend(xs, ys);
  }

  // ---------------------------------------------------------------------------
  // The constant-table entries the helpers read
  // ---------------------------------------------------------------------------

  /** The keys of `CONTAINER_WIDTHS`. */
  datatype ContainerVariant = Content | Forms | Dashboard | Landing | Modal

  /** `CONTAINER_WIDTHS[variant]`; the `modal` entry is itself a table of widths. */
  function ContainerWidth(v: ContainerVariant): ClassArg {
    match v
    case Content => Str("max-w-3xl")
    case Forms => Str("max-w-5xl")
    case Dashboard => Str("max-w-7xl")
    case Landing => Str("max-w-full")
    case Modal => Table
  }

  /** `SPACING.page.padding` */
  const PagePadding := "px-4 py-6 md:py-8"

  /** The keys of `BUTTON.variant`. */
  datatype ButtonVariant = Primary | Secondary | Accent | Ghost | Link | Outline

  /** The keys of `BUTTON.size`. */
  datatype ButtonSize = Xs | Sm | Md | Lg

  /** `BUTTON.variant[variant]` */
  function VariantClass(v: ButtonVariant): string {
    match v
    case Primary => "btn-primary"
    case Secondary => "btn-secondary"
    case Accent => "btn-accent"
    case Ghost => "btn-ghost"
    case Link => "btn-link"
    case Outline => "btn-outline"
  }

  /** `BUTTON.size[size]`; the default size `md` has no class of its own. */
  function SizeClass(s: ButtonSize): string {
    match s
    case Xs => "btn-xs"
    case Sm => "btn-sm"
    case Md => ""
    case Lg => "btn-lg"
  }

  // ---------------------------------------------------------------------------
  // The helpers
  // ---------------------------------------------------------------------------

  /**
   * `getContainerClasses(variant)`: the centred container, the page padding,
   * and the width; for `modal` the width is a table, which the join writes
   * as `[object Object]`.
   */
  function GetContainerClasses(variant: ContainerVariant): (r: string)
    ensures r == "container mx-auto px-4 py-6 md:py-8 " + ClassText(ContainerWidth(variant))
  {
    var width := ContainerWidth(variant);
    CnThree(Str("container mx-auto"), Str(PagePadding), width);
    CnSingle(Str("container mx-auto"));
    CnSingle(Str(PagePadding));
    CnSingle(width);
    var w := ClassText(width);
    assert Truthy(width) && w != "";
    assert Glue(PagePadding, w) == PagePadding + " " + w;
    ContainerPrefix(w);
    Cn([Str("container mx-auto"), Str(PagePadding), width])
  }

  /** The fixed part of the container classes, spelled out. */
  lemma ContainerPrefix(w: string)
    ensures "container mx-auto" + " " + (PagePadding + " " + w) == "container mx-auto px-4 py-6 md:py-8 " + w
  {
    assert "container mx-auto" + " " + PagePadding + " " == "container mx-auto px-4 py-6 md:py-8 ";
  }

  /** A string-valued width is appended as it is; the `modal` table is written as `[object Object]`. */
  lemma ContainerClassesByVariant(variant: ContainerVariant)
    ensures variant != Modal ==> GetContainerClasses(variant) == "container mx-auto px-4 py-6 md:py-8 " + ContainerWidth(variant).s
    ensures GetContainerClasses(Modal) == "container mx-auto px-4 py-6 md:py-8 [object Object]"
  {
  }

  /**
   * `getButtonClasses(variant = 'primary', size = 'md')`: `btn`, the variant
   * class and the size class, where the empty `md` class is dropped.
   */
  function GetButtonClasses(variant: ButtonVariant := Primary, size: ButtonSize := Md): (r: string)
    ensures size == Md ==> r == "btn " + VariantClass(variant)
    ensures size != Md ==> r == "btn " + VariantClass(variant) + " " + SizeClass(size)
  {
    CnThree(Str("btn"), Str(VariantClass(variant)), Str(SizeClass(size)));
    CnSingle(Str("btn"));
    CnSingle(Str(VariantClass(variant)));
    CnSingle(Str(SizeClass(size)));
    Cn([Str("btn"), Str(VariantClass(variant)), Str(SizeClass(size))])
  }

  /** With both defaults the result is `btn btn-primary`. */
  lemma DefaultButtonClasses()
    ensures GetButtonClasses() == "btn btn-primary"
  {
  }
}
