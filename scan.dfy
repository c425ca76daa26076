/**
 * The directory scan: a dropped folder is walked with an explicit stack
 * (pop the last entry; a directory pushes its children in iteration
 * order), every file whose name ends in `.js`, `.jsx`, `.ts` or `.tsx`
 * is read and its imports and exports extracted, and the record is stored
 * under the file's base name.
 */
module Scan {
  import opened Dict
  import opened Extract
  import opened Extensions

  /** A file-system handle: a file with its name and text, or a directory with its children
      in the order the directory iterator yields them. */
  datatype Entry = File(name: string, content: string) | Directory(name: string, children: seq<Entry>)

  /** A file that the scan keeps. */
  predicate IsSourceFile(e: Entry) {
    e.File? && HasSourceExtension(e.name)
  }

  /** Number of handles in a list of trees, directories and files alike. */
  function TreeSize(es: seq<Entry>): nat
    decreases es
  {
    if es == [] then 0
    else
      TreeSize(es[..|es| - 1]) + 1 +
        match es[|es| - 1]
        case File(_, _) => 0
        case Directory(_, children) => TreeSize(children)
  }

  lemma {:induction false} TreeSizeAppend(a: seq<Entry>, b: seq<Entry>)
    ensures TreeSize(a + b) == TreeSize(a) + TreeSize(b)
    decreases |b|
  {
    if b != [] {
      assert (a + b)[..|a + b| - 1] == a + b[..|b| - 1];
      TreeSizeAppend(a, b[..|b| - 1]);
    } else {
      assert a + b == a;
    }
  }

  /** Every file in a list of trees, left to right and depth first: the reference for what the scan must reach. */
  function FilesIn(es: seq<Entry>): (r: seq<Entry>)
    ensures forall k :: 0 <= k < |r| ==> r[k].File?
    decreases es
  {
    if es == [] then []
    else
      FilesIn(es[..|es| - 1]) +
        match es[|es| - 1]
        case File(_, _) => [es[|es| - 1]]
        case Directory(_, children) => FilesIn(children)
  }

  lemma {:induction false} FilesInAppend(a: seq<Entry>, b: seq<Entry>)
    ensures FilesIn(a + b) == FilesIn(a) + FilesIn(b)
    decreases |b|
  {
    if b != [] {
      assert (a + b)[..|a + b| - 1] == a + b[..|b| - 1];
      assert (a + b)[|a + b| - 1] == b[|b| - 1];
      FilesInAppend(a, b[..|b| - 1]);
    } else {
      assert a + b == a;
    }
  }

  /** The files in the order the stack loop pops them: the last entry of the stack is taken first,
      and a directory is replaced by its children. */
  function Visit(stack: seq<Entry>): (r: seq<Entry>)
    ensures forall k :: 0 <= k < |r| ==> r[k].File?
    decreases TreeSize(stack)
  {
    if stack == [] then []
    else
      var rest := stack[..|stack| - 1];
      match stack[|stack| - 1]
      case File(_, _) => [stack[|stack| - 1]] + Visit(rest)
      case Directory(_, children) =>
        TreeSizeAppend(rest, children);
        Visit(rest + children)
  }

  /** The stack loop reaches every file in the trees exactly once, and nothing else. */
  lemma {:induction false} VisitFindsEveryFile(stack: seq<Entry>)
    ensures multiset(Visit(stack)) == multiset(FilesIn(stack))
    decreases TreeSize(stack)
  {
    if stack != [] {
      var rest := stack[..|stack| - 1];
      match stack[|stack| - 1]
      case File(_, _) =>
        VisitFindsEveryFile(rest);
      case Directory(_, children) =>
        TreeSizeAppend(rest, children);
        VisitFindsEveryFile(rest + children);
        FilesInAppend(rest, children);
    }
  }

  /** One popped file's effect on the dictionary: a source file replaces or adds the record under
      its name, any other file leaves it as it is. */
  function Process(d: Dict<FileRecord>, e: Entry): (r: Dict<FileRecord>)
    requires d.Valid()
    ensures r.Valid()
  {
    if IsSourceFile(e) then Put(d, e.name, ExtractRecord(e.content)) else d
  }

  /** The dictionary after the given files have been popped in order. */
  function Collect(files: seq<Entry>): (d: Dict<FileRecord>)
    ensures d.Valid()
  {
    if files == [] then Empty() else Process(Collect(files[..|files| - 1]), files[|files| - 1])
  }

  /** `parseNextJSFiles`: walk the tree from `root` with an explicit stack and record every source file. */
  method ParseFiles(root: Entry) returns (components: Dict<FileRecord>)
    ensures components == Collect(Visit([root]))
  {
    components := Empty();
    var stack := [root];
    ghost var popped: seq<Entry> := [];
    while |stack| > 0
      invariant popped + Visit(stack) == Visit([root])
      invariant components == Collect(popped)
      decreases TreeSize(stack)
    {
      var entry := stack[|stack| - 1];
      stack := stack[..|stack| - 1];
      match entry {
        case File(name, content) =>
          if HasSourceExtension(name) {
            components := Put(components, name, ExtractRecord(content));
          }
          assert (popped + [entry])[..|popped|] == popped;
          popped := popped + [entry];
        case Directory(_, children) =>
          ghost var rest := stack;
          stack := PushAll(stack, children);
          TreeSizeAppend(rest, children);
      }
    }
    assert popped + Visit(stack) == popped;
  }

  /** `for await (const handle of entry.values()) stack.push(handle)`: the children go on top of the
      stack in iteration order, so the last child is popped first. */
  method PushAll(stack: seq<Entry>, children: seq<Entry>) returns (r: seq<Entry>)
    ensures r == stack + children
  {
    r := stack;
    var j := 0;
    while j < |children|
      invariant 0 <= j <= |children| && r == stack + children[..j]
    {
      r := r + [children[j]];
      j := j + 1;
    }
    assert children[..|children|] == children;
  }

  /** Position `j` of `files` holds a source file named `k`. */
  ghost predicate SourceFileAt(files: seq<Entry>, j: int, k: string) {
    0 <= j < |files| && IsSourceFile(files[j]) && files[j].name == k
  }

  /** Only source files become records: a name is a key exactly when some processed source file bears it. */
  lemma {:induction false} CollectKeys(files: seq<Entry>, k: string)
    ensures k in Collect(files).values <==> exists j :: SourceFileAt(files, j, k)
  {
    if files != [] {
      var init := files[..|files| - 1];
      CollectKeys(init, k);
      assert forall j :: SourceFileAt(init, j, k) ==> SourceFileAt(files, j, k);
      if k in Collect(files).values && k !in Collect(init).values {
        assert SourceFileAt(files, |files| - 1, k);
      }
      if exists j :: SourceFileAt(files, j, k) {
        var j :| SourceFileAt(files, j, k);
        if j < |init| {
          assert SourceFileAt(init, j, k);
        }
      }
    }
  }

  /** Position `j` holds the last source file named `k`. */
  ghost predicate LastSourceFileAt(files: seq<Entry>, j: int, k: string) {
    SourceFileAt(files, j, k) && forall j' :: j < j' < |files| ==> !SourceFileAt(files, j', k)
  }

  /** The last source file processed under a name supplies the record: a later file with the same
      name replaces the value stored by an earlier one. */
  lemma {:induction false} CollectLastWins(files: seq<Entry>, k: string)
    requires k in Collect(files).values
    ensures exists j :: LastSourceFileAt(files, j, k) && Collect(files).values[k] == ExtractRecord(files[j].content)
  {
    var init := files[..|files| - 1];
    var last := files[|files| - 1];
    assert Collect(files) == Process(Collect(init), last);
    if IsSourceFile(last) && last.name == k {
      assert LastSourceFileAt(files, |files| - 1, k);
    } else {
      assert k in Collect(init).values;
      ProcessKeepsOthers(Collect(init), last, k);
      CollectLastWins(init, k);
      var j :| LastSourceFileAt(init, j, k) && Collect(init).values[k] == ExtractRecord(init[j].content);
      LastSourceFileLifts(files, j, k);
    }
  }

  /** A file at the end that is not a source file named `k` leaves the last such file where it was. */
  lemma LastSourceFileLifts(files: seq<Entry>, j: int, k: string)
    requires |files| > 0 && LastSourceFileAt(files[..|files| - 1], j, k)
    requires !(IsSourceFile(files[|files| - 1]) && files[|files| - 1].name == k)
    ensures LastSourceFileAt(files, j, k) && files[j] == files[..|files| - 1][j]
  {
    var init := files[..|files| - 1];
    forall j' | j < j' < |files| ensures !SourceFileAt(files, j', k) {
      if j' < |init| {
        assert files[j'] == init[j'] && !SourceFileAt(init, j', k);
      }
    }
  }

  /** Processing a file leaves the record of every other name as it was. */
  lemma ProcessKeepsOthers(d: Dict<FileRecord>, e: Entry, k: string)
    requires d.Valid() && k in d.values && !(IsSourceFile(e) && e.name == k)
    ensures k in Process(d, e).values && Process(d, e).values[k] == d.values[k]
  {
  }

  /** How many of the files are source files. */
  function CountSourceFiles(files: seq<Entry>): nat {
    if files == [] then 0
    else CountSourceFiles(files[..|files| - 1]) + if IsSourceFile(files[|files| - 1]) then 1 else 0
  }

  /** There are at most as many records as source files processed (names that repeat collapse into one). */
  lemma {:induction false} CollectSize(files: seq<Entry>)
    ensures |Collect(files).order| <= CountSourceFiles(files)
  {
    if files != [] {
      CollectSize(files[..|files| - 1]);
    }
  }

  /** Records are listed in the order their names were first processed: if `order[a]` comes before
      `order[b]`, every source file named `order[b]` is preceded by one named `order[a]`. */
  lemma {:induction false} CollectOrderIsFirstOccurrence(files: seq<Entry>, a: nat, b: nat, j: nat) returns (i: nat)
    requires a < b < |Collect(files).order|
    requires SourceFileAt(files, j, Collect(files).order[b])
    ensures i < j && SourceFileAt(files, i, Collect(files).order[a])
  {
    var init := files[..|files| - 1];
    var d := Collect(init);
    var order := Collect(files).order;
    var ka, kb := order[a], order[b];
    assert order == d.order || order == d.order + [files[|files| - 1].name];
    assert a < |d.order|;
    if j < |init| {
      SourceFileAtInit(files, j, kb);
      CollectKeys(init, kb);
      i := CollectOrderIsFirstOccurrence(init, a, b, j);
    } else {
      CollectKeys(init, ka);
      i :| SourceFileAt(init, i, ka);
    }
    SourceFileAtInit(files, i, ka);
  }

  /** Dropping the last file keeps every earlier position as it was. */
  lemma SourceFileAtInit(files: seq<Entry>, i: nat, k: string)
    requires i < |files| - 1
    ensures SourceFileAt(files, i, k) <==> SourceFileAt(files[..|files| - 1], i, k)
  {
    assert files[..|files| - 1][i] == files[i];
  }

  /** The records are keyed by exactly the names of the source files found anywhere in the tree. */
  lemma ParsedKeys(root: Entry, k: string)
    ensures k in Collect(Visit([root])).values <==> exists f :: f in FilesIn([root]) && IsSourceFile(f) && f.name == k
  {
    var fs := Visit([root]);
    VisitFindsEveryFile([root]);
    CollectKeys(fs, k);
    SameMembers(fs, FilesIn([root]));
    if exists f :: f in FilesIn([root]) && IsSourceFile(f) && f.name == k {
      var f :| f in FilesIn([root]) && IsSourceFile(f) && f.name == k;
      var j :| 0 <= j < |fs| && fs[j] == f;
      assert SourceFileAt(fs, j, k);
    }
  }

  /** Two lists that are permutations of each other hold the same elements. */
  lemma SameMembers(a: seq<Entry>, b: seq<Entry>)
    requires multiset(a) == multiset(b)
    ensures forall f :: f in a <==> f in b
  {
    forall f ensures f in a <==> f in b {
      assert f in a <==> f in multiset(a);
      assert f in b <==> f in multiset(b);
    }
  }
}
