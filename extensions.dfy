/**
 * The source-file extension pattern `/\.(js|jsx|ts|tsx)$/`, used both to
 * select files during the scan and to strip a key's extension during
 * import resolution.
 */
module Extensions {
  import opened Strings

  const SourceExtensions: seq<string> := [".js", ".jsx", ".ts", ".tsx"]

  /** `name.match(/\.(js|jsx|ts|tsx)$/)` succeeds. */
  predicate HasSourceExtension(name: string) {
    EndsWith(name, ".js") || EndsWith(name, ".jsx") || EndsWith(name, ".ts") || EndsWith(name, ".tsx")
  }

  /** `key.replace(/\.(js|jsx|ts|tsx)$/, '')`: the name without its source extension, unchanged when it has none. */
  function StripExtension(key: string): string {
    if EndsWith(key, ".js") || EndsWith(key, ".ts") then key[..|key| - 3]
    else if EndsWith(key, ".jsx") || EndsWith(key, ".tsx") then key[..|key| - 4]
    else key
  }

  /** What stripping leaves: the key less one of the source extensions it ends in, or the whole key
      when it ends in none. */
  lemma StripExtensionRemovesSuffix(key: string)
    ensures HasSourceExtension(key) ==> exists e :: e in SourceExtensions && StripExtension(key) + e == key
    ensures !HasSourceExtension(key) ==> StripExtension(key) == key
  {
    var n := |key|;
    if EndsWith(key, ".js") || EndsWith(key, ".ts") {
      assert key[..n - 3] + key[n - 3..] == key;
      assert key[n - 3..] in SourceExtensions;
    } else if EndsWith(key, ".jsx") || EndsWith(key, ".tsx") {
      assert key[..n - 4] + key[n - 4..] == key;
      assert key[n - 4..] in SourceExtensions;
    }
  }

  /** Stripping undoes appending any one of the source extensions. */
  lemma StripExtensionRoundTrip(stem: string, e: string)
    requires e in SourceExtensions
    ensures HasSourceExtension(stem + e)
    ensures StripExtension(stem + e) == stem
  {
    var key := stem + e;
    assert key[|key| - |e|..] == e;
    assert key[..|stem|] == stem;
    if e == ".jsx" || e == ".tsx" {
      assert key[|key| - 3..] == e[1..];
    }
  }
}
