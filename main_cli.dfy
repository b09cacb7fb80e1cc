/**
 * The algorithm-name table of src/main_cli.rs: the known carving algorithms,
 * their command-line names, the lookup from a name, and the comma-separated
 * list of choices printed for an unknown name.
 */
module MainCli {
  import opened Wrappers

  datatype KnownAlgo = BinaryTree | SideWinder

  /** `KnownAlgo::all`: every algorithm once, BinaryTree first. */
  function All(): (r: seq<KnownAlgo>)
    ensures |r| == 2 && r[0] == BinaryTree
    ensures BinaryTree in r && SideWinder in r
  {
    [BinaryTree, SideWinder]
  }

  /** `name`: never empty. */
  function Name(a: KnownAlgo): (n: string)
    ensures |n| > 0
  {
    match a
    case BinaryTree => "BinaryTree"
    case SideWinder => "SideWinder"
  }

  /** `from`: finds the algorithm of exactly that name, and none for any other string. */
  function From(name: string): (r: Option<KnownAlgo>)
    ensures r.Some? ==> Name(r.value) == name
    ensures r.None? ==> forall a: KnownAlgo :: Name(a) != name
  {
    if name == "BinaryTree" then Some(BinaryTree)
    else if name == "SideWinder" then Some(SideWinder)
    else None
  }

  /** Different algorithms have different names. */
  lemma NameInjective(a: KnownAlgo, b: KnownAlgo)
    requires a != b
    ensures Name(a) != Name(b)
  {
  }

  /** Looking up the name of an algorithm gives that algorithm back. */
  lemma FromName(a: KnownAlgo)
    ensures From(Name(a)) == Some(a)
  {
  }

  /** A step of the fold: `", "` unless nothing was written yet, then the name. */
  function JoinStep(res: string, a: KnownAlgo): string {
    (if res != "" then res + ", " else res) + Name(a)
  }

  /** The fold of `JoinStep` over `s`, from `res`, left to right. */
  function Fold(res: string, s: seq<KnownAlgo>): string
    decreases |s|
  {
    if |s| == 0 then res else Fold(JoinStep(res, s[0]), s[1..])
  }

  /** `", name"` for each algorithm of `s`, in order. */
  function Tail(s: seq<KnownAlgo>): string
    decreases |s|
  {
    if |s| == 0 then "" else ", " + Name(s[0]) + Tail(s[1..])
  }

  /** The names of `s` separated by `", "`. */
  function Separated(s: seq<KnownAlgo>): string {
    if |s| == 0 then "" else Name(s[0]) + Tail(s[1..])
  }

  /** Once something is written, the fold appends `", name"` for each algorithm. */
  lemma {:induction false} FoldAfterFirst(res: string, s: seq<KnownAlgo>)
    requires res != ""
    ensures Fold(res, s) == res + Tail(s)
    decreases |s|
  {
    if |s| > 0 {
      var sep := ", " + Name(s[0]);
      var next := JoinStep(res, s[0]);
      assert next == res + sep;
      FoldAfterFirst(next, s[1..]);
      assert Tail(s) == sep + Tail(s[1..]);
      assert (res + sep) + Tail(s[1..]) == res + (sep + Tail(s[1..]));
    }
  }

  /** The fold from the empty string is the names separated by `", "`, with no leading separator. */
  lemma FoldIsSeparated(s: seq<KnownAlgo>)
    ensures Fold("", s) == Separated(s)
  {
    if |s| > 0 {
      assert JoinStep("", s[0]) == Name(s[0]);
      FoldAfterFirst(Name(s[0]), s[1..]);
    }
  }

  /** The choices printed for an unknown name. */
  function Choices(): string {
    Fold("", All())
  }

  lemma ChoicesText()
    ensures Choices() == "BinaryTree, SideWinder"
  {
    FoldIsSeparated(All());
    assert All()[1..] == [SideWinder];
    assert All()[1..][1..] == [];
  }
}
