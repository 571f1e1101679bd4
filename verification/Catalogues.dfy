/** The catalogue configuration: catalogues installed by packages, overlaid by the user's
    own catalogues and by the "disabled" flags the user has given to the former. */
module Catalogues {
  import opened Wrappers
  import opened Xexps

  // ---- Association lists

  function Find(ks: seq<Xexp>, tag: string): Option<Xexp> {
    if ks == [] then None else if ks[0].tag == tag then Some(ks[0]) else Find(ks[1..], tag)
  }

  function Aref(x: Xexp, tag: string): Option<Xexp> {
    if x.List? then Find(x.kids, tag) else None
  }

  /** The text of a child; a list with children has none. */
  function ArefText(x: Xexp, tag: string): Option<string> {
    match Aref(x, tag)
    case Some(Text(_, t)) => Some(t)
    case Some(List(_, ks)) => if ks == [] then Some("") else None
    case None => None
  }

  function ArefBool(x: Xexp, tag: string): bool {
    Aref(x, tag).Some?
  }

  function Drop(ks: seq<Xexp>, tag: string): (r: seq<Xexp>)
    ensures |r| <= |ks|
  {
    if ks == [] then []
    else if ks[0].tag == tag then Drop(ks[1..], tag)
    else [ks[0]] + Drop(ks[1..], tag)
  }

  function Adel(x: Xexp, tag: string): Xexp {
    if x.List? then x.(kids := Drop(x.kids, tag)) else x
  }

  function Aset(x: Xexp, val: Xexp): Xexp {
    if x.List? then x.(kids := [val] + Drop(x.kids, val.tag)) else x
  }

  function AsetBool(x: Xexp, tag: string, val: bool): Xexp {
    if val then Aset(x, List(tag, [])) else Adel(x, tag)
  }

  function AsetText(x: Xexp, tag: string, val: Option<string>): Xexp {
    if val.Some? then Aset(x, NewText(tag, val.value)) else Adel(x, tag)
  }

  // ---- Keys of package catalogues

  function Lower(c: char): char {
    if 'A' <= c <= 'Z' then c - 'A' + 'a' else c
  }

  function AsciiLower(s: string): (r: string)
    ensures |r| == |s| && forall i :: 0 <= i < |s| ==> r[i] == Lower(s[i])
  {
    seq(|s|, i requires 0 <= i < |s| => Lower(s[i]))
  }

  datatype CatKey = CatKey(file: string, id: string)

  /** What a reference to a package catalogue refers to, ignoring the case of ASCII letters. */
  function KeyOf(x: Xexp): Option<CatKey> {
    var file, id := ArefText(x, "file"), ArefText(x, "id");
    if file.Some? && id.Some? then Some(CatKey(AsciiLower(file.value), AsciiLower(id.value))) else None
  }

  function IsValid(x: Xexp, distribution: string): bool {
    var filter := ArefText(x, "filter_dist");
    filter.None? || filter.value == distribution
  }

  // ---- Reading

  /** The index of the first catalogue with the key. */
  function FindPackage(key: Option<CatKey>, cats: seq<Xexp>): (n: nat)
    ensures n <= |cats|
    ensures n < |cats| ==> key.Some? && KeyOf(cats[n]) == key
    ensures key.Some? ==> forall i :: 0 <= i < n ==> KeyOf(cats[i]) != key
    ensures key.None? ==> n == |cats|
  {
    if cats == [] then 0
    else if key.Some? && KeyOf(cats[0]) == key then 0
    else 1 + FindPackage(key, cats[1..])
  }

  /** One catalogue of a package file. */
  function AddPackageCatalogue(global: seq<Xexp>, m: Xexp, file: string, distribution: string): seq<Xexp> {
    if ArefText(m, "id").None? || !IsValid(m, distribution) then global
    else global + [AsetText(m, "file", Some(file))]
  }

  function AddPackageCatalogues(global: seq<Xexp>, cat: seq<Xexp>, file: string, distribution: string): seq<Xexp>
    decreases |cat|
  {
    if cat == [] then global
    else
      AddPackageCatalogues(AddPackageCatalogue(global, cat[0], file, distribution), cat[1..], file, distribution)
  }

  /** The catalogues of all package files, each with the name of its file. */
  function PackageCatalogues(files: seq<(string, seq<Xexp>)>, distribution: string): seq<Xexp> {
    if files == [] then []
    else
      var last := files[|files| - 1];
      AddPackageCatalogues(PackageCatalogues(files[..|files| - 1], distribution), last.1, last.0, distribution)
  }

  /** One entry of the user's file. */
  function AddUserCatalogue(global: seq<Xexp>, m: Xexp, distribution: string): seq<Xexp> {
    if KeyOf(m).None? && IsValid(m, distribution) then global + [m]
    else
      var n := FindPackage(KeyOf(m), global);
      if n < |global| then global[n := AsetBool(global[n], "disabled", ArefBool(m, "disabled"))] else global
  }

  function AddUserCatalogues(global: seq<Xexp>, user: seq<Xexp>, distribution: string): seq<Xexp>
    decreases |user|
  {
    if user == [] then global
    else AddUserCatalogues(AddUserCatalogue(global, user[0], distribution), user[1..], distribution)
  }

  // ---- Writing

  /** A reference to a package catalogue, with the user's flag. */
  function Reference(x: Xexp): Xexp {
    AsetText(AsetText(AsetBool(List("catalogue", []), "disabled", ArefBool(x, "disabled")),
                      "id", ArefText(x, "id")),
             "file", ArefText(x, "file"))
  }

  function WriteCatalogue(x: Xexp): seq<Xexp> {
    if x.tag != "catalogue" then []
    else if KeyOf(x).Some? then [Reference(x)]
    else [x]
  }

  function WriteUserCatalogues(cats: seq<Xexp>): seq<Xexp> {
    if cats == [] then [] else WriteUserCatalogues(cats[..|cats| - 1]) + WriteCatalogue(cats[|cats| - 1])
  }

  // ---- What is kept

  predicate FirstWithKey(pkgs: seq<Xexp>, i: nat)
    requires i < |pkgs|
  {
    KeyOf(pkgs[i]).Some? && FindPackage(KeyOf(pkgs[i]), pkgs) == i
  }

  /** The package catalogue `p` with the flag of the last of `cats` that refers to it. */
  function Override(p: Xexp, cats: seq<Xexp>): Xexp {
    if cats == [] then p
    else
      var x := cats[|cats| - 1];
      if x.tag == "catalogue" && KeyOf(x).Some? && KeyOf(x) == KeyOf(p)
      then AsetBool(p, "disabled", ArefBool(x, "disabled"))
      else Override(p, cats[..|cats| - 1])
  }

  /** All of them; of those with the same key only the first one is found. */
  function Overridden(pkgs: seq<Xexp>, cats: seq<Xexp>): (r: seq<Xexp>)
    ensures |r| == |pkgs|
    ensures forall i :: 0 <= i < |pkgs| ==> r[i] == if FirstWithKey(pkgs, i) then Override(pkgs[i], cats) else pkgs[i]
  {
    seq(|pkgs|, i requires 0 <= i < |pkgs| => if FirstWithKey(pkgs, i) then Override(pkgs[i], cats) else pkgs[i])
  }

  /** The user's own catalogues that are valid, in order. */
  function UsersOwn(cats: seq<Xexp>, distribution: string): seq<Xexp> {
    if cats == [] then []
    else
      var x := cats[|cats| - 1];
      UsersOwn(cats[..|cats| - 1], distribution) +
      (if x.tag == "catalogue" && KeyOf(x).None? && IsValid(x, distribution) then [x] else [])
  }

  // ---- Lemmas about association

  lemma {:induction false} FindDropped(ks: seq<Xexp>, tag: string, other: string)
    ensures Find(Drop(ks, tag), other) == if other == tag then None else Find(ks, other)
  {
    if ks != [] {
      FindDropped(ks[1..], tag, other);
      if ks[0].tag != tag {
        assert Drop(ks, tag)[1..] == Drop(ks[1..], tag);
      }
    }
  }

  /** A flag reads as set, and everything else as before. */
  lemma AsetBoolReads(x: Xexp, tag: string, val: bool, other: string)
    requires x.List?
    ensures ArefBool(AsetBool(x, tag, val), tag) == val
    ensures other != tag ==> Aref(AsetBool(x, tag, val), other) == Aref(x, other)
  {
    FindDropped(x.kids, tag, tag);
    FindDropped(x.kids, tag, other);
    assert val ==> ([List(tag, [])] + Drop(x.kids, tag))[1..] == Drop(x.kids, tag);
  }

  lemma AsetTextReads(x: Xexp, tag: string, val: string, other: string)
    requires x.List?
    ensures ArefText(AsetText(x, tag, Some(val)), tag) == Some(val)
    ensures other != tag ==> Aref(AsetText(x, tag, Some(val)), other) == Aref(x, other)
  {
    FindDropped(x.kids, tag, other);
    assert ([NewText(tag, val)] + Drop(x.kids, tag))[1..] == Drop(x.kids, tag);
  }

  lemma {:induction false} DropTwice(ks: seq<Xexp>, tag: string)
    ensures Drop(Drop(ks, tag), tag) == Drop(ks, tag)
  {
    if ks != [] {
      DropTwice(ks[1..], tag);
      if ks[0].tag != tag {
        assert Drop(ks, tag)[1..] == Drop(ks[1..], tag);
      }
    }
  }

  /** The last flag wins. */
  lemma AsetBoolTwice(x: Xexp, tag: string, a: bool, b: bool)
    ensures AsetBool(AsetBool(x, tag, a), tag, b) == AsetBool(x, tag, b)
  {
    if x.List? {
      DropTwice(x.kids, tag);
      assert a ==> ([List(tag, [])] + Drop(x.kids, tag))[1..] == Drop(x.kids, tag);
    }
  }

  lemma FlagKeepsKey(x: Xexp, val: bool)
    ensures KeyOf(AsetBool(x, "disabled", val)) == KeyOf(x)
  {
    if x.List? {
      AsetBoolReads(x, "disabled", val, "file");
      AsetBoolReads(x, "disabled", val, "id");
    }
  }

  /** A reference says what it has to say. */
  lemma ReferenceReads(x: Xexp)
    requires KeyOf(x).Some?
    ensures KeyOf(Reference(x)) == KeyOf(x)
    ensures ArefBool(Reference(x), "disabled") == ArefBool(x, "disabled")
    ensures Reference(x).tag == "catalogue"
  {
    var x0 := List("catalogue", []);
    var x1 := AsetBool(x0, "disabled", ArefBool(x, "disabled"));
    var x2 := AsetText(x1, "id", ArefText(x, "id"));
    AsetBoolReads(x0, "disabled", ArefBool(x, "disabled"), "id");
    AsetTextReads(x1, "id", ArefText(x, "id").value, "disabled");
    AsetTextReads(x2, "file", ArefText(x, "file").value, "id");
    AsetTextReads(x2, "file", ArefText(x, "file").value, "disabled");
  }
}
