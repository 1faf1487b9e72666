/** The parsed form of a script: commands with positional and advanced
    arguments, and the copy-on-write container that holds the advanced
    arguments. */
module Commands {
  import opened Symbols

  /** Advanced arguments. `None` is the nil map a command starts with;
      every operation treats it like the empty map. */
  datatype AdvArgs = AdvArgs(raw: Option<map<string, string>>)

  /** The entries, with the nil map read as empty. */
  function Entries(a: AdvArgs): map<string, string> {
    if a.raw.None? then map[] else a.raw.value
  }

  const NoAdvArgs: AdvArgs := AdvArgs(None)

  /** The value stored under `key`, or "" when there is none. */
  function Get(a: AdvArgs, key: string): (v: string)
    ensures key !in Entries(a) ==> v == ""
    ensures v != "" ==> key in Entries(a) && Entries(a)[key] == v
  {
    if key in Entries(a) then Entries(a)[key] else ""
  }

  /** A fresh container with `key` set to `value`. The receiver is a value,
      so it cannot be changed; every other entry is carried over. */
  function With(a: AdvArgs, key: string, value: string): (b: AdvArgs)
    ensures b.raw.Some?
    ensures key in Entries(b) && Entries(b)[key] == value
    ensures Entries(b).Keys == Entries(a).Keys + {key}
    ensures forall k :: k in Entries(a) && k != key ==> Entries(b)[k] == Entries(a)[k]
  {
    AdvArgs(Some(Entries(a)[key := value]))
  }

  /** The "when" value and whether the key is present at all: an explicit
      empty value is present, a missing key is not. */
  function GetWhen(a: AdvArgs): (r: (string, bool))
    ensures r.1 <==> KeyWhen in Entries(a)
    ensures r.0 == Get(a, KeyWhen)
  {
    if KeyWhen in Entries(a) then (Entries(a)[KeyWhen], true) else ("", false)
  }

  const KeyWhen: string := "when"

  /** True for the nil map and for an empty one alike. */
  function IsEmpty(a: AdvArgs): (r: bool)
    ensures r <==> Entries(a) == map[]
    ensures a.raw.None? ==> r
  {
    |Entries(a)| == 0
  }

  /** An enumeration order for the entries: every key exactly once. Go's
      map iteration order is unspecified, so it is a parameter. */
  predicate IsOrder(a: AdvArgs, order: seq<string>) {
    && |order| == |Entries(a)|
    && (forall i :: 0 <= i < |order| ==> order[i] in Entries(a))
    && (forall i, j :: 0 <= i < j < |order| ==> order[i] != order[j])
  }

  /** Calls `fn` on the entries in `order` until it returns false; the
      result is the list of calls made. */
  function Range(a: AdvArgs, order: seq<string>, fn: (string, string) -> bool): (calls: seq<(string, string)>)
    requires IsOrder(a, order)
    ensures |calls| <= |order|
    ensures forall i :: 0 <= i < |calls| ==> calls[i] == (order[i], Entries(a)[order[i]])
    ensures forall i :: 0 <= i < |calls| - 1 ==> fn(calls[i].0, calls[i].1)
    ensures |calls| < |order| ==> |calls| > 0 && !fn(calls[|calls| - 1].0, calls[|calls| - 1].1)
  {
    RangeFrom(a, order, fn, 0)
  }

  function RangeFrom(a: AdvArgs, order: seq<string>, fn: (string, string) -> bool, i: nat): (calls: seq<(string, string)>)
    requires IsOrder(a, order) && i <= |order|
    ensures |calls| <= |order| - i
    ensures forall j :: 0 <= j < |calls| ==> calls[j] == (order[i + j], Entries(a)[order[i + j]])
    ensures forall j :: 0 <= j < |calls| - 1 ==> fn(calls[j].0, calls[j].1)
    ensures |calls| < |order| - i ==> |calls| > 0 && !fn(calls[|calls| - 1].0, calls[|calls| - 1].1)
    decreases |order| - i
  {
    if i == |order| then []
    else
      var k := order[i];
      var v := Entries(a)[k];
      if !fn(k, v) then [(k, v)] else [(k, v)] + RangeFrom(a, order, fn, i + 1)
  }

  /** A command: a lower-case name, positional arguments (empty when the
      command has none) and advanced arguments. */
  datatype Command = Command(name: string, args: seq<string>, advArgs: AdvArgs)

  /** A parsed script: its commands in order. */
  datatype Script = Script(cmds: seq<Command>)

  /** Setting a key and reading it back gives the value; every other key
      reads as before. */
  lemma {:induction false} GetWith(a: AdvArgs, key: string, value: string, other: string)
    ensures Get(With(a, key, value), key) == value
    ensures other != key ==> Get(With(a, key, value), other) == Get(a, other)
    ensures !IsEmpty(With(a, key, value))
  {
  }

  /** When every call returns true, every entry is visited exactly once. */
  lemma {:induction false} RangeVisitsAll(a: AdvArgs, order: seq<string>, fn: (string, string) -> bool)
    requires IsOrder(a, order)
    requires forall k :: k in Entries(a) ==> fn(k, Entries(a)[k])
    ensures |Range(a, order, fn)| == |Entries(a)|
    ensures forall k :: k in Entries(a) ==> exists i :: 0 <= i < |Range(a, order, fn)| && Range(a, order, fn)[i].0 == k
  {
    RangeFromAll(a, order, fn, 0);
    var calls := Range(a, order, fn);
    OrderCovers(a, order);
    forall k | k in Entries(a)
      ensures exists i :: 0 <= i < |calls| && calls[i].0 == k
    {
      var i :| 0 <= i < |order| && order[i] == k;
      assert calls[i].0 == k;
    }
  }

  lemma {:induction false} RangeFromAll(a: AdvArgs, order: seq<string>, fn: (string, string) -> bool, i: nat)
    requires IsOrder(a, order) && i <= |order|
    requires forall k :: k in Entries(a) ==> fn(k, Entries(a)[k])
    ensures |RangeFrom(a, order, fn, i)| == |order| - i
    decreases |order| - i
  {
    if i < |order| {
      assert order[i] in Entries(a);
      RangeFromAll(a, order, fn, i + 1);
    }
  }

  /** An order names every key. */
  lemma {:induction false} OrderCovers(a: AdvArgs, order: seq<string>)
    requires IsOrder(a, order)
    ensures forall k :: k in Entries(a) ==> k in order
  {
    var listed := set i | 0 <= i < |order| :: order[i];
    assert listed <= Entries(a).Keys;
    SetOfDistinct(order);
    var rest := Entries(a).Keys - listed;
    assert Entries(a).Keys == listed + rest && listed * rest == {};
    assert rest == {};
    forall k | k in Entries(a) ensures k in order {
      assert k in listed;
    }
  }

  lemma {:induction false} SetOfDistinct(s: seq<string>)
    requires forall i, j :: 0 <= i < j < |s| ==> s[i] != s[j]
    ensures |set i | 0 <= i < |s| :: s[i]| == |s|
    decreases |s|
  {
    if s != [] {
      var t := s[..|s| - 1];
      SetOfDistinct(t);
      var st := set i | 0 <= i < |t| :: t[i];
      var ss := set i | 0 <= i < |s| :: s[i];
      assert ss == st + {s[|s| - 1]};
      assert s[|s| - 1] !in st;
    }
  }
}
