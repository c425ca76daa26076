/**
 * Resolution of an import specifier to a file record: the loose,
 * first-match substring heuristic of the graph builder.  A record key
 * matches a specifier when the key contains the specifier with one
 * leading `./` removed, or when that stripped specifier contains the key
 * without its source extension.  The target is the first matching key
 * in enumeration order; the importing file itself is not excluded.
 */
module Resolve {
  import opened Wrappers
  import opened Strings
  import opened Extensions

  /** `imp.replace(/^\.\//, '')`: one leading `./` is dropped; nothing else (`../`, a second `./`) is touched. */
  function StripDotSlash(imp: string): (r: string)
    ensures StartsWith(imp, "./") ==> "./" + r == imp
    ensures !StartsWith(imp, "./") ==> r == imp
  {
    if StartsWith(imp, "./") then imp[2..] else imp
  }

  /** The predicate passed to `find`: does record key `key` match import specifier `imp`? */
  predicate Matches(key: string, imp: string) {
    var name := StripDotSlash(imp);
    Includes(key, name) || Includes(name, StripExtension(key))
  }

  /** The first index from `i` on whose key matches `imp`. */
  function FirstMatchFrom(keys: seq<string>, imp: string, i: nat): (r: Option<nat>)
    requires i <= |keys|
    ensures r.Some? ==> i <= r.value < |keys|
    decreases |keys| - i
  {
    if i == |keys| then None
    else if Matches(keys[i], imp) then Some(i)
    else FirstMatchFrom(keys, imp, i + 1)
  }

  /** `Array.from(componentMap.entries()).find(...)`: the index of the first key, in enumeration
      order, that matches the specifier, or `None` when no key does. */
  function FirstMatch(keys: seq<string>, imp: string): (r: Option<nat>)
    ensures r.Some? ==> r.value < |keys|
  {
    FirstMatchFrom(keys, imp, 0)
  }

  lemma {:induction false} FirstMatchFromIsFirst(keys: seq<string>, imp: string, i: nat)
    requires i <= |keys|
    ensures FirstMatchFrom(keys, imp, i).Some? ==>
      Matches(keys[FirstMatchFrom(keys, imp, i).value], imp)
      && forall j :: i <= j < FirstMatchFrom(keys, imp, i).value ==> !Matches(keys[j], imp)
    ensures FirstMatchFrom(keys, imp, i).None? <==> forall j :: i <= j < |keys| ==> !Matches(keys[j], imp)
    decreases |keys| - i
  {
    if i < |keys| && !Matches(keys[i], imp) {
      FirstMatchFromIsFirst(keys, imp, i + 1);
    }
  }

  /** The result of `find` matches, no earlier key matches, and there is no result exactly when no
      key matches. */
  lemma FirstMatchIsFirst(keys: seq<string>, imp: string)
    ensures FirstMatch(keys, imp).Some? ==>
      Matches(keys[FirstMatch(keys, imp).value], imp)
      && forall j :: 0 <= j < FirstMatch(keys, imp).value ==> !Matches(keys[j], imp)
    ensures FirstMatch(keys, imp).None? <==> forall j :: 0 <= j < |keys| ==> !Matches(keys[j], imp)
  {
    FirstMatchFromIsFirst(keys, imp, 0);
  }

  /** Only a single leading `./` is removed. */
  lemma StripDotSlashOnce(rest: string)
    ensures StripDotSlash("./" + rest) == rest
    ensures StripDotSlash("././" + rest) == "./" + rest
  {
    assert ("./" + rest)[..2] == "./";
    assert ("././" + rest)[..2] == "./";
    assert ("././" + rest)[2..] == "./" + rest;
  }

  /** A parent-relative specifier keeps its `../`. */
  lemma StripDotSlashKeepsParent(rest: string)
    ensures StripDotSlash("../" + rest) == "../" + rest
  {
    assert ("../" + rest)[1] == '.';
  }

  /** A specifier that is empty once stripped (such as `./`) matches the very first key. */
  lemma EmptySpecifierMatchesFirst(keys: seq<string>, imp: string)
    requires |keys| > 0 && StripDotSlash(imp) == ""
    ensures FirstMatch(keys, imp) == Some(0)
  {
    assert Matches(keys[0], imp);
  }

  /** A key that is nothing but an extension (such as `.js`) matches every specifier, so no
      specifier resolves past it. */
  lemma BareExtensionKeyMatchesAll(keys: seq<string>, j: nat, imp: string)
    requires j < |keys| && StripExtension(keys[j]) == ""
    ensures FirstMatch(keys, imp).Some? && FirstMatch(keys, imp).value <= j
  {
    FirstMatchIsFirst(keys, imp);
    assert Matches(keys[j], imp);
  }

  /** A file importing itself by its own name (`./` followed by the key without its extension) is
      matched by its own key, so the resolved target lies at or before the importing file. */
  lemma SelfImportResolves(keys: seq<string>, s: nat)
    requires s < |keys| && HasSourceExtension(keys[s])
    ensures FirstMatch(keys, "./" + StripExtension(keys[s])).Some?
    ensures FirstMatch(keys, "./" + StripExtension(keys[s])).value <= s
  {
    var stem := StripExtension(keys[s]);
    StripDotSlashOnce(stem);
    assert stem[..|stem|] == stem;
    assert Matches(keys[s], "./" + stem);
    FirstMatchIsFirst(keys, "./" + stem);
  }

  /** Order dependence: `./b` resolves to `button.js` when that key comes first, because the key
      contains `b`. */
  lemma ShortNameFalsePositive()
    ensures FirstMatch(["button.js", "b.js"], "./b") == Some(0)
  {
    StripDotSlashOnce("b");
    assert Matches("button.js", "./b");
  }

  /** `./b` imported from `a.js` resolves to `b.js`, the second key. */
  lemma SiblingImportResolves()
    ensures FirstMatch(["a.js", "b.js"], "./b") == Some(1)
  {
    StripDotSlashOnce("b");
    assert StripExtension("a.js") == "a";
    assert !Includes("a.js", "b");
    assert !Includes("b", "a");
  }
}
