/** In what form a reference is stored: relative to the config's own file, or abbreviated. */
module ConfigReference {
  import opened Prelude
  import opened CStrings
  import opened ConfigItems
  import opened ConfigReload
  import opened PathSegments
  import opened PathResolve
  import opened PathLaws
  import opened PathRelative

  const NAME_MAX_LENGTH: nat := 256

  /** The working directory, and what the special notations for the home and application directories stand for. */
  datatype Places = Places(dirs: seq<string>, expand: string -> string, abbreviate: string -> string)

  /** The absolute path that a reference in the file `refpath` means. */
  function AbsoluteForm(pl: Places, refpath: string, p: string): string {
    var c, r := Portable(Truncate(p, PATH_MAX_LENGTH)), Portable(Truncate(refpath, PATH_MAX_LENGTH));
    var e := Truncate(pl.expand(c), PATH_MAX_LENGTH);
    Portable(if Absolute(e) then e else ResolveRelative(pl.dirs, r, c, PATH_MAX_LENGTH))
  }

  /** fill_pathname_abbreviated_or_relative: whichever form has fewer slashes, the relative one on a tie. */
  function StoredForm(pl: Places, refpath: string, p: string): string {
    var r, a := Portable(Truncate(refpath, PATH_MAX_LENGTH)), AbsoluteForm(pl, refpath, p);
    var relative := Truncate(RelativeTo(a, r), PATH_MAX_LENGTH);
    var abbreviated := Truncate(pl.abbreviate(a), NAME_MAX_LENGTH);
    if CountSlashes(relative) <= CountSlashes(abbreviated) then Truncate(relative, NAME_MAX_LENGTH) else abbreviated
  }

  ghost predicate StoresLike(env: Env, pl: Places) {
    forall refpath, p :: env.store(refpath, p) == StoredForm(pl, refpath, p)
  }

  lemma PortableAlready(p: string)
    requires '\\' !in p
    ensures Portable(p) == p
  {
  }

  /** The name of the config's own file plays no part. */
  lemma RelativeToFile(path: string, base: string, file: string)
    requires base != "" && base[|base| - 1] == '/' && '/' !in file
    ensures RelativeTo(path, base + file) == RelativeTo(path, base)
  {
    hide Common, ThroughSlash, CountSlashes;
    var whole := base + file;
    var i := Common(path, whole);
    CountNone(file);
    if i < |base| {
      assert path[..i] == whole[..i] == base[..i] && whole[i] == base[i];
      CommonIs(path, base, i);
      assert whole[i..] == base[i..] + file;
      CountAppend(base[i..], file);
    } else {
      var k := i - |base|;
      assert path[..|base|] == path[..i][..|base|] == whole[..i][..|base|] == base[..|base|];
      CommonIs(path, base, |base|);
      assert whole[i..] == file[k..] && base[|base|..] == "";
      CountNone(file[k..]);
      CountNone("");
      assert forall n :: |base| <= n < i ==> path[..i][n] == file[n - |base|] && file[n - |base|] in file;
      assert path[..i][|base| - 1] == base[|base| - 1];
      ThroughSlashIs(path[..i], |base|);
      ThroughSlashIs(path[..|base|], |base|);
    }
  }

  lemma BaseDirOfFile(base: string, file: string)
    requires base != "" && base[|base| - 1] == '/' && '/' !in file && '\\' !in file
    ensures BaseDir(base + file) == base
  {
    var whole := base + file;
    assert forall n :: |base| <= n < |whole| ==> whole[n] == file[n - |base|] && file[n - |base|] in file;
    ThroughLastIs(whole, |base|);
    assert whole[..|base|] == base;
  }

  /** The path a relative form means, for a config file in the directory `base`. */
  lemma RelativeFormMeans(pl: Places, path: string, base: string, file: string, st: seq<string>, last: string,
                          names: seq<string>)
    requires Names(st) && Tail(st, last) && path == Text(st) + last && Names(names) && base == Text(names)
    requires '/' !in file && '\\' !in file && '\\' !in path && '\\' !in base
    requires |base + file| < PATH_MAX_LENGTH && |path| < PATH_MAX_LENGTH
    requires |base| + |RelativeTo(path, base)| < PATH_MAX_LENGTH
    requires pl.expand(RelativeTo(path, base)) == RelativeTo(path, base)
    ensures AbsoluteForm(pl, base + file, RelativeTo(path, base)) == path
  {
    var ref, rel := base + file, RelativeTo(path, base);
    TextLast(names);
    RelativeIsPlain(path, base, st, last, names);
    assert '\\' !in ref;
    PortableAlready(ref);
    PortableAlready(rel);
    PortableAlready(path);
    BaseDirOfFile(base, file);
    BaseDirOfFile(base, "");
    assert base + "" == base;
    assert ResolveRelative(pl.dirs, ref, rel, PATH_MAX_LENGTH) == ResolveRelative(pl.dirs, base, rel, PATH_MAX_LENGTH);
    hide *;
    RelativeRoundTrip(path, base, st, last, names, pl.dirs, PATH_MAX_LENGTH);
  }

  lemma RelativeIsPlain(path: string, base: string, st: seq<string>, last: string, names: seq<string>)
    requires Names(st) && Tail(st, last) && path == Text(st) + last && Names(names) && base == Text(names)
    requires '\\' !in path
    ensures '\\' !in RelativeTo(path, base) && !Absolute(RelativeTo(path, base))
  {
    hide RelativeTo, Text, Join, Names, Tail;
    var n, m, j := Parting(path, base, st, last, names);
    NotAbsolute(|names| - n, st, m, last, path[j..]);
    UpsPlain(|names| - n);
  }

  lemma {:induction false} UpsPlain(n: nat)
    ensures '\\' !in Ups(n)
  {
    if n > 0 { UpsPlain(n - 1); }
  }

  /** A reference stored in its relative form is stored in the same form when it is read back. */
  lemma RelativeFormSettles(env: Env, pl: Places, p: string, path: string, base: string, file: string, st: seq<string>,
                            last: string, names: seq<string>)
    requires StoresLike(env, pl)
    requires Names(st) && Tail(st, last) && path == Text(st) + last && Names(names) && base == Text(names)
    requires '/' !in file && '\\' !in file && '\\' !in path && '\\' !in base
    requires |base + file| < PATH_MAX_LENGTH && |path| < PATH_MAX_LENGTH
    requires |base| + |RelativeTo(path, base)| < PATH_MAX_LENGTH && |RelativeTo(path, base)| < NAME_MAX_LENGTH
    requires pl.expand(RelativeTo(path, base)) == RelativeTo(path, base)
    requires AbsoluteForm(pl, base + file, p) == path
    requires CountSlashes(RelativeTo(path, base)) <= CountSlashes(Truncate(pl.abbreviate(path), NAME_MAX_LENGTH))
    ensures env.store(base + file, p) == RelativeTo(path, base)
    ensures Settled(env, base + file, env.store(base + file, p))
  {
    var ref, rel := base + file, RelativeTo(path, base);
    TextLast(names);
    assert '\\' !in ref;
    assert env.store(ref, p) == StoredForm(pl, ref, p) && env.store(ref, rel) == StoredForm(pl, ref, rel);
    assert Settled(env, ref, rel) <==> env.store(ref, Portable(rel)) == rel;
    hide *;
    RelativeFormMeans(pl, path, base, file, st, last, names);
    RelativeToFile(path, base, file);
    RelativeIsPlain(path, base, st, last, names);
    PortableAlready(rel);
    StoredRelative(pl, ref, p, path);
    StoredRelative(pl, ref, rel, path);
  }

  lemma StoredRelative(pl: Places, ref: string, p: string, path: string)
    requires '\\' !in ref && |ref| < PATH_MAX_LENGTH && AbsoluteForm(pl, ref, p) == path
    requires |RelativeTo(path, ref)| < NAME_MAX_LENGTH
    requires CountSlashes(RelativeTo(path, ref)) <= CountSlashes(Truncate(pl.abbreviate(path), NAME_MAX_LENGTH))
    ensures StoredForm(pl, ref, p) == RelativeTo(path, ref)
  {
    hide AbsoluteForm, RelativeTo, CountSlashes;
    PortableAlready(ref);
  }

  /** In the file /x/main.cfg the reference /x/y.cfg is stored as y.cfg. */
  lemma StoredOtherwise(pl: Places, base: string, file: string, name: string)
    requires base == "/x/" && file == "main.cfg" && name == "y.cfg"
    requires pl.expand(base + name) == base + name && pl.abbreviate(base + name) == base + name
    ensures StoredForm(pl, base + file, base + name) == name
  {
    var ref, path := base + file, base + name;
    assert '\\' !in ref && '\\' !in path && '/' !in name && '/' !in file && file[0] != name[0] && |ref| == 11 && |path| == 8;
    assert base[2] == '/' && |base| == 3;
    hide *;
    AbsoluteAlready(pl, ref, path);
    BesideIt(base, file, name);
    CountAppend(base, name);
    CountNone(name);
    assert Truncate(path, NAME_MAX_LENGTH) == path by { NotCut(path, NAME_MAX_LENGTH); }
    StoredRelative(pl, ref, path, path);
  }

  lemma AbsoluteAlready(pl: Places, ref: string, path: string)
    requires |path| < PATH_MAX_LENGTH && '\\' !in path && Absolute(path) && pl.expand(path) == path
    ensures AbsoluteForm(pl, ref, path) == path
  {
    PortableAlready(path);
  }

  /** Two files in the same directory. */
  lemma BesideIt(base: string, file: string, name: string)
    requires base != "" && base[|base| - 1] == '/' && '/' !in file && '/' !in name
    requires file != "" && name != "" && file[0] != name[0]
    ensures RelativeTo(base + name, base + file) == name
  {
    var path, ref, n := base + name, base + file, |base|;
    assert path[..n] == base == ref[..n] && path[n] == name[0] && ref[n] == file[0];
    assert path[n..] == name && ref[n..] == file;
    CommonIs(path, ref, n);
    ThroughSlashIs(path[..n], n);
    CountNone(file);
    assert "" + name == name;
  }
}
