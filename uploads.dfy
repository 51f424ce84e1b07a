/**
 * What the scraper (scrapers/crec.py) and the stager (crec_stager/crec_stager.py)
 * share about writing to S3: keys are built by joining path components onto a
 * key prefix, and an upload run stops at the first put that fails.
 */
module Uploads {
  import opened Text
  import opened Calendar
  import opened Paths

  /** The puts a run completes when it stops at the first one that fails: the longest prefix that succeeds. */
  function Uploaded<T>(keys: seq<T>, succeeds: T -> bool): seq<T> {
    if keys == [] || !succeeds(keys[0]) then [] else [keys[0]] + Uploaded(keys[1..], succeeds)
  }

  /** What a run completes is a prefix of its puts, each of which succeeded, and the put after it failed. */
  lemma {:induction false} UploadedPrefix<T>(keys: seq<T>, succeeds: T -> bool)
    ensures var r := Uploaded(keys, succeeds);
      && |r| <= |keys| && r == keys[..|r|]
      && (forall j :: 0 <= j < |r| ==> succeeds(keys[j]))
      && (|r| < |keys| ==> !succeeds(keys[|r|]))
  {
    if keys != [] && succeeds(keys[0]) {
      var rest := Uploaded(keys[1..], succeeds);
      UploadedPrefix(keys[1..], succeeds);
      assert [keys[0]] + rest == keys[..|rest| + 1];
    }
  }

  /** The three properties of `Uploaded` determine it: any prefix that has them is the one a run completes. */
  lemma {:induction false} UploadedUnique<T>(keys: seq<T>, succeeds: T -> bool, n: nat)
    requires n <= |keys|
    requires forall j :: 0 <= j < n ==> succeeds(keys[j])
    requires n < |keys| ==> !succeeds(keys[n])
    ensures Uploaded(keys, succeeds) == keys[..n]
  {
    if n > 0 {
      UploadedUnique(keys[1..], succeeds, n - 1);
      assert keys[..n] == [keys[0]] + keys[1..][..n - 1];
    }
  }

  /** A run over a first put and the rest: the rest runs only if the first put succeeds. */
  lemma UploadedCons<T>(first: T, rest: seq<T>, succeeds: T -> bool)
    ensures Uploaded([first] + rest, succeeds)
      == if succeeds(first) then [first] + Uploaded(rest, succeeds) else []
  {
    assert ([first] + rest)[1..] == rest;
  }

  /** A run reports success exactly when every put succeeded. */
  lemma UploadedAll<T>(keys: seq<T>, succeeds: T -> bool)
    ensures Uploaded(keys, succeeds) == keys <==> forall j :: 0 <= j < |keys| ==> succeeds(keys[j])
  {
  }

  /** `os.path.join` onto a directory-like prefix: the prefix, with one `/` added unless it is empty or ends in one. */
  function DirPrefix(a: string): (r: string)
    ensures r == a || r == a + "/"
    ensures r != [] ==> r[|r| - 1] == '/'
  {
    if a == [] || a[|a| - 1] == '/' then a else a + "/"
  }

  /** Joining a relative component onto a prefix appends it to the prefix as a directory. */
  lemma JoinOnto(a: string, b: string)
    requires b == [] || b[0] != '/'
    ensures PathJoin(a, b) == DirPrefix(a) + b
  {
  }

  /** A dated S3 key `prefix/YYYY/MM/DD/name...`: joining the date and then `names` onto the prefix. */
  lemma DatedKey(prefix: string, d: Day, names: seq<string>)
    requires |names| >= 1
    requires forall i :: 0 <= i < |names| - 1 ==> names[i] != [] && '/' !in names[i]
    requires names[|names| - 1] == [] || names[|names| - 1][0] != '/'
    ensures PathJoinAll(prefix, [SlashDate(d)] + names) == DirPrefix(prefix) + SlashDate(d) + "/" + Join("/", names)
  {
    var date := SlashDate(d);
    assert IsDigit(date[9]) && IsDigit(date[0]);
    KeyUnder(prefix, date, names);
  }

  /** Joining a component and then `names` onto a prefix. */
  lemma KeyUnder(prefix: string, date: string, names: seq<string>)
    requires date != [] && date[0] != '/' && date[|date| - 1] != '/'
    requires |names| >= 1
    requires forall i :: 0 <= i < |names| - 1 ==> names[i] != [] && '/' !in names[i]
    requires names[|names| - 1] == [] || names[|names| - 1][0] != '/'
    ensures PathJoinAll(prefix, [date] + names) == DirPrefix(prefix) + date + "/" + Join("/", names)
  {
    var under := PathJoin(prefix, date);
    JoinOnto(prefix, date);
    assert ([date] + names)[1..] == names;
    assert PathJoinAll(prefix, [date] + names) == PathJoinAll(under, names);
    JoinedUnder(under, names);
  }

  /** The key of a file `base` under a data-type directory: `prefix/date/dataType/base`. */
  lemma TypedKey(prefix: string, date: string, dataType: string, base: string)
    requires date != [] && date[0] != '/' && date[|date| - 1] != '/'
    requires dataType != [] && '/' !in dataType && '/' !in base
    ensures PathJoinAll(prefix, [date, dataType, base]) == DirPrefix(prefix) + date + "/" + dataType + "/" + base
  {
    var names := [dataType, base];
    assert [date, dataType, base] == [date] + names;
    KeyUnder(prefix, date, names);
    assert Join("/", names[1..]) == base;
    assert Join("/", names) == dataType + "/" + base;
    var dir := DirPrefix(prefix) + date + "/";
    AppendAssoc(dir, dataType + "/", base);
    AppendAssoc(dir, dataType, "/");
  }

  /** Joining non-empty, `/`-free components onto a path that does not end in `/`. */
  lemma {:induction false} JoinedUnder(dir: string, names: seq<string>)
    requires dir != [] && dir[|dir| - 1] != '/'
    requires |names| >= 1
    requires forall i :: 0 <= i < |names| - 1 ==> names[i] != [] && '/' !in names[i]
    requires names[|names| - 1] == [] || names[|names| - 1][0] != '/'
    ensures PathJoinAll(dir, names) == dir + "/" + Join("/", names)
    decreases |names|
  {
    var next := PathJoin(dir, names[0]);
    assert next == dir + "/" + names[0];
    if |names| == 1 {
      assert PathJoinAll(dir, names) == PathJoinAll(next, []);
    } else {
      assert names[0] != [] && '/' !in names[0];
      assert names[0][|names[0]| - 1] in names[0];
      assert next[|next| - 1] == names[0][|names[0]| - 1];
      JoinedUnder(next, names[1..]);
      assert Join("/", names) == names[0] + "/" + Join("/", names[1..]);
    }
  }
}
