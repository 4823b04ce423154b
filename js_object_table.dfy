/**
 * The slug table as the JavaScript code writes it: a plain object literal
 * `{}`, whose property lookups fall back to `Object.prototype`. Only the
 * inherited property a slug can spell matters here: `constructor`, which
 * reads as the native `Object` function. Everything else reads as
 * `undefined` until it is set.
 *
 * The rest of the model keeps the table as a map of own keys only
 * (`GhSlugify.CountOf`), which is what the numbering evidently intends.
 */
module JsObjectTable {
  import opened Strings
  import GhSlugify
  import LegacyComponent

  /** The values a table entry can hold once `+=` has been applied to an inherited function. */
  datatype JsValue = Undefined | Count(n: nat) | Text(s: string) | ObjectFunction

  /** The source text `String(Object)` gives in JavaScript engines. */
  const ObjectSource := "function Object() { [native code] }"

  predicate Truthy(v: JsValue)
  {
    match v
    case Undefined => false
    case Count(n) => n != 0
    case Text(s) => s != ""
    case ObjectFunction => true
  }

  /** JavaScript string conversion, as a template literal applies it. */
  function ToText(v: JsValue): string
  {
    match v
    case Undefined => "undefined"
    case Count(n) => NatToString(n)
    case Text(s) => s
    case ObjectFunction => ObjectSource
  }

  /** `v || 0` */
  function OrZero(v: JsValue): JsValue
  {
    if Truthy(v) then v else Count(0)
  }

  /** `v + 1`: numeric addition on a number, string concatenation on anything else. */
  function PlusOne(v: JsValue): JsValue
  {
    match v
    case Count(n) => Count(n + 1)
    case _ => Text(ToText(v) + "1")
  }

  /** `this.slugs[key]` on an object created as `{}`. */
  function Get(table: map<string, JsValue>, key: string): JsValue
  {
    if key in table then table[key] else if key == "constructor" then ObjectFunction else Undefined
  }

  /**
   * The numbering step as written, after the base slug is known. `sep` is
   * `-` in `GithubSlugify.slug` and empty in the older component's
   * `renderHeading`. Returns the id and the new table.
   */
  function AsWrittenSlug(table: map<string, JsValue>, slug: string, sep: string): (string, map<string, JsValue>)
  {
    var table1 := table[slug := OrZero(Get(table, slug))];
    var id := if Truthy(table1[slug]) then slug + sep + ToText(table1[slug]) else slug;
    (id, table1[slug := PlusOne(table1[slug])])
  }

  /** A table of counts as the JavaScript object holding them. */
  function Lift(counts: map<string, nat>): map<string, JsValue>
  {
    map k | k in counts :: Count(counts[k])
  }

  /** The first heading whose slug is `constructor` is not given the bare slug. */
  lemma ConstructorIsNeverBare(sep: string)
    ensures AsWrittenSlug(map[], "constructor", sep).0 == "constructor" + sep + ObjectSource
    ensures AsWrittenSlug(map[], "constructor", sep).0 != "constructor"
  {
  }

  /** The second one gets the function's text with a `1` glued on. */
  lemma ConstructorTwice(sep: string)
    ensures var first := AsWrittenSlug(map[], "constructor", sep);
            AsWrittenSlug(first.1, "constructor", sep).0 == "constructor" + sep + ObjectSource + "1"
  {
  }

  /**
   * Away from the inherited key, the JavaScript table and the own-key table
   * of the model agree step by step: same id (`base-k`) and same counts.
   */
  lemma AgreesOffPrototype(counts: map<string, nat>, slug: string)
    requires slug != "constructor"
    ensures AsWrittenSlug(Lift(counts), slug, "-")
            == (GhSlugify.Suffixed(slug, GhSlugify.CountOf(counts, slug)), Lift(GhSlugify.Counted(counts, slug)))
  {
    var t := Lift(counts);
    assert OrZero(Get(t, slug)) == Count(GhSlugify.CountOf(counts, slug));
    var r := AsWrittenSlug(t, slug, "-");
    assert r.1 == Lift(GhSlugify.Counted(counts, slug));
  }

  /** The same agreement for the older component, whose suffix has no separator. */
  lemma AgreesOffPrototypeBare(counts: map<string, nat>, slug: string)
    requires slug != "constructor"
    ensures AsWrittenSlug(Lift(counts), slug, "")
            == (LegacyComponent.BareSuffixed(slug, GhSlugify.CountOf(counts, slug)), Lift(GhSlugify.Counted(counts, slug)))
  {
    var t := Lift(counts);
    assert OrZero(Get(t, slug)) == Count(GhSlugify.CountOf(counts, slug));
    var r := AsWrittenSlug(t, slug, "");
    assert slug + "" == slug;
    assert r.1 == Lift(GhSlugify.Counted(counts, slug));
  }
}
