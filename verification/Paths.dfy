/** Paths as the projected filesystem takes them apart: at backslashes, with trailing ones dropped. */
module Paths {
  import opened Bytes

  const SEPARATOR := '\\'

  /** The path without the separators at its end. */
  function Strip(path: string): (r: string)
    ensures r <= path && (r == "" || r[|r| - 1] != SEPARATOR)
    ensures forall i :: |r| <= i < |path| ==> path[i] == SEPARATOR
  {
    if path != "" && path[|path| - 1] == SEPARATOR then Strip(path[..|path| - 1]) else path
  }

  /** `path.find(L'\\', from)`: the first separator at or behind `from`. */
  function Find(path: string, from: nat): (r: Option<nat>)
    requires from <= |path|
    ensures r.Some? ==> from <= r.value < |path| && path[r.value] == SEPARATOR && SEPARATOR !in path[from..r.value]
    ensures r == None ==> SEPARATOR !in path[from..]
    decreases |path| - from
  {
    if from == |path| then None
    else if path[from] == SEPARATOR then Some(from)
    else
      var r := Find(path, from + 1);
      assert path[from..] == [path[from]] + path[from + 1..];
      assert r.Some? ==> path[from..r.value] == [path[from]] + path[from + 1..r.value];
      r
  }

  /** The names between the separators. */
  ghost function Split(path: string): (names: seq<string>)
    ensures names != [] && forall i :: 0 <= i < |names| ==> SEPARATOR !in names[i]
    decreases |path|
  {
    match Find(path, 0)
    case None => [path]
    case Some(i) => [path[..i]] + Split(path[i + 1..])
  }

  /** The names with separators between them. */
  ghost function Join(names: seq<string>): string
    requires names != []
  {
    if |names| == 1 then names[0] else names[0] + [SEPARATOR] + Join(names[1..])
  }

  lemma {:induction false} JoinSplit(path: string)
    ensures Join(Split(path)) == path
    decreases |path|
  {
    match Find(path, 0)
    case None =>
    case Some(i) =>
      JoinSplit(path[i + 1..]);
      assert path == path[..i] + [SEPARATOR] + path[i + 1..];
      assert Split(path)[1..] == Split(path[i + 1..]);
  }

  lemma {:induction false} SplitJoin(names: seq<string>)
    requires names != [] && forall i :: 0 <= i < |names| ==> SEPARATOR !in names[i]
    ensures Split(Join(names)) == names
  {
    if |names| > 1 {
      var path, n := Join(names), |names[0]|;
      assert path[..n] == names[0] && path[n] == SEPARATOR && path[n + 1..] == Join(names[1..]);
      FindAfter(path, 0, n);
      forall i | 0 <= i < |names[1..]|
        ensures SEPARATOR !in names[1..][i]
      {
        assert names[1..][i] == names[i + 1];
      }
      SplitJoin(names[1..]);
    } else {
      assert Find(names[0], 0) == None;
    }
  }

  /** The first separator is the one with none before it. */
  lemma {:induction false} FindAfter(path: string, from: nat, n: nat)
    requires from <= n < |path| && path[n] == SEPARATOR && SEPARATOR !in path[from..n]
    ensures Find(path, from) == Some(n)
    decreases n - from
  {
    if from < n {
      assert path[from..n] == [path[from]] + path[from + 1..n];
      FindAfter(path, from + 1, n);
    }
  }

  /** The first separator behind `from` is the first of what is behind `from`. */
  lemma {:induction false} FindBehind(path: string, from: nat)
    requires from <= |path|
    ensures match Find(path, from)
      case None => Find(path[from..], 0) == None
      case Some(i) => Find(path[from..], 0) == Some(i - from)
  {
    hide Find;
    var rest, found := path[from..], Find(path, from);
    if found.Some? {
      var m := found.value - from;
      assert rest[0..m] == path[from..found.value] && rest[m] == path[found.value];
      FindAfter(rest, 0, m);
    }
  }

  /** One turn of a loop that walks a path name by name. */
  lemma {:induction false} SplitStep(path: string, namePos: nat)
    requires namePos <= |path|
    ensures match Find(path, namePos)
      case None => Split(path[namePos..]) == [path[namePos..]]
      case Some(i) => Split(path[namePos..]) == [path[namePos..i]] + Split(path[i + 1..])
  {
    hide Find;
    FindBehind(path, namePos);
    var found := Find(path, namePos);
    if found.Some? {
      var rest, m := path[namePos..], found.value - namePos;
      assert rest[..m] == path[namePos..found.value] && rest[m + 1..] == path[found.value + 1..];
    }
  }

  lemma {:induction false} JoinOneMore(names: seq<string>, name: string)
    requires names != []
    ensures Join(names + [name]) == Join(names) + [SEPARATOR] + name
  {
    if |names| == 1 {
      assert (names + [name])[1..] == [name];
    } else {
      assert (names + [name])[1..] == names[1..] + [name];
      JoinOneMore(names[1..], name);
    }
  }
}
