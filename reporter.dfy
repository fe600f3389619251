/**
  The reporting side of the main loop: `dic2list`, which orders a filtered
  record's values by key, and the `CAPTURE:` line printed for a line whose
  filtered record is non-empty.
*/
module Reporter {
  import opened Wrappers
  import opened PyStr
  import opened KeyOrder
  import opened EventParser

  /** The event type the main loop selects. */
  const TypeLine := "execve"

  /** `dic2list`: the values, taken in `sorted` order of their keys. */
  function Dic2List(m: Record): (r: seq<string>)
    ensures |r| == |m|
    ensures forall i :: 0 <= i < |r| ==> r[i] in m.Values
  {
    var keys := SortedKeys(m.Keys);
    seq(|keys|, i requires 0 <= i < |keys| => m[keys[i]])
  }

  /**
    `dic2list` lists the values in ascending string order of their keys:
    any strictly ascending enumeration of the keys gives the same list.
  */
  lemma Dic2ListByAscendingKey(m: Record, keys: seq<string>, values: seq<string>)
    requires StrictlySorted(keys)
    requires forall k :: k in keys <==> k in m
    requires |values| == |keys| && forall i :: 0 <= i < |keys| ==> values[i] == m[keys[i]]
    ensures Dic2List(m) == values
  {
    StrictlySortedUnique(SortedKeys(m.Keys), keys);
  }

  /** `a10` sorts between `a1` and `a2`. */
  lemma Dic2ListIsLexicographic()
    ensures Dic2List(map["a1" := "x", "a2" := "y", "a10" := "z"]) == ["x", "z", "y"]
  {
    var m := map["a1" := "x", "a2" := "y", "a10" := "z"];
    assert m.Keys == {"a1", "a2", "a10"};
    SortedKeysIsLexicographic();
  }

  /**
    Lines 99-103 for a parsed line: `filterdic(data)`, and when that is a
    non-empty dictionary, `CAPTURE: ` followed by its values joined with
    single spaces.
  */
  function Report(data: Option<Record>): (r: Option<string>)
    ensures r.Some? <==>
              && data.Some?
              && Lower(TypeOf(data.value)) == TypeLine
              && exists k :: k in data.value && IsArgKey(k)
  {
    match FilterDic(data, TypeLine)
    case None => None
    case Some(f) =>
      if f == map[] then
        assert forall k :: k in data.value && IsArgKey(k) ==> k in f;
        None
      else
        assert exists k :: k in f;
        Some("CAPTURE: " + Join(Dic2List(f), " "))
  }

  /** Lines 99-103 for one received line. */
  function Capture(line: string): (r: Option<string>)
    ensures r.Some? <==>
              && Data2Dic(line).Some?
              && Lower(TypeOf(Data2Dic(line).value)) == TypeLine
              && exists k :: k in Data2Dic(line).value && IsArgKey(k)
  {
    Report(Data2Dic(line))
  }

  /**
    The text printed for a reported record: `CAPTURE: ` and the values of
    its argument fields, taken in ascending key order and joined by single
    spaces.
  */
  lemma ReportText(rec: Record, ks: seq<string>, values: seq<string>)
    requires Lower(TypeOf(rec)) == TypeLine
    requires ks != [] && StrictlySorted(ks)
    requires forall k :: k in ks <==> k in rec && IsArgKey(k)
    requires |values| == |ks| && forall i :: 0 <= i < |ks| ==> values[i] == rec[ks[i]]
    ensures Report(Some(rec)) == Some("CAPTURE: " + Join(values, " "))
  {
    var f := FilterDic(Some(rec), TypeLine).value;
    assert forall k :: k in ks <==> k in f;
    assert forall i :: 0 <= i < |ks| ==> values[i] == f[ks[i]];
    Dic2ListByAscendingKey(f, ks, values);
    assert f != map[] by { assert ks[0] in f; }
  }

  /** An `execve` record with two argument fields whose keys ascend reports their values in that order. */
  lemma ReportTwoArguments(ty: string, k0: string, v0: string, k1: string, v1: string)
    requires Lower(ty) == TypeLine && IsArgKey(k0) && IsArgKey(k1) && Less(k0, k1)
    ensures Report(Some(map["type" := ty, k0 := v0, k1 := v1])) == Some("CAPTURE: " + (v0 + " " + v1))
  {
    var rec := map["type" := ty, k0 := v0, k1 := v1];
    LessIrreflexive(k0);
    LessAsymmetric(k0, k1);
    assert !IsArgKey("type");
    assert StrictlySorted([k0, k1]);
    assert rec[k0] == v0 && rec[k1] == v1;
    ReportText(rec, [k0, k1], [v0, v1]);
    assert Join([v0, v1], " ") == v0 + " " + v1;
  }

  /**
    An `execve` line (in any letter case) with two argument fields whose
    keys ascend is reported as `CAPTURE: ` and the two values, unquoted,
    in key order.
  */
  lemma CaptureTwoArguments(ty: string, k0: string, v0: string, k1: string, v1: string)
    requires |ty| > 0 && Plain(ty) && Lower(ty) == TypeLine
    requires IsArgKey(k0) && Plain(k0) && '=' !in k0 && Plain(v0)
    requires IsArgKey(k1) && Plain(k1) && '=' !in k1 && Plain(v1)
    requires Less(k0, k1)
    ensures Capture(ExecveLine(ty, k0, v0, k1, v1)) == Some("CAPTURE: " + (v0 + " " + v1))
  {
    Data2DicExecveLine(ty, k0, v0, k1, v1);
    ReportTwoArguments(ty, k0, v0, k1, v1);
  }
}
