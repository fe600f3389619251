/**
  The two parsing stages applied to every audit line: `data2dic`, which
  turns a line of `key=value` tokens into a dictionary, and `filterdic`,
  which keeps an `execve` record's numbered argument fields.
*/
module EventParser {
  import opened Wrappers
  import opened PyStr

  /** A parsed audit line: field name to field value. */
  type Record = map<string, string>

  /**
    One token split at its first `=` into a key and a value, each stripped
    of surrounding spaces and double quotes; `None` when the token has no
    `=` (the tuple unpacking in the comprehension raises).
  */
  function Field(tok: string): (r: Option<(string, string)>)
    ensures r.None? <==> '=' !in tok
  {
    match SplitOnce(tok, '=')
    case None => None
    case Some((k, v)) => Some((Strip(k), Strip(v)))
  }

  /** Every token's field, in order; `None` as soon as one token has no `=`. */
  function Fields(tokens: seq<string>): (r: Option<seq<(string, string)>>)
    ensures r.None? <==> exists i :: 0 <= i < |tokens| && '=' !in tokens[i]
    ensures r.Some? ==> |r.value| == |tokens| &&
                        forall i {:trigger r.value[i]} :: 0 <= i < |tokens| ==> Field(tokens[i]) == Some(r.value[i])
  {
    if tokens == [] then Some([])
    else
      match Field(tokens[0])
      case None => None
      case Some(f) =>
        match Fields(tokens[1..])
        case None => None
        case Some(fs) => Some([f] + fs)
  }

  /** A token is cut at the first `=`, whatever the value holds. */
  lemma FieldOfToken(tok: string, k: string, v: string)
    requires tok == k + "=" + v && '=' !in k
    ensures Field(tok) == Some((Strip(k), Strip(v)))
  {
    SplitOnceUnique(tok, '=', k, v);
  }

  /** When every token has a field, `Fields` lists them in order. */
  lemma {:induction false} FieldsOfWellFormed(tokens: seq<string>, fs: seq<(string, string)>)
    requires |fs| == |tokens|
    requires forall i :: 0 <= i < |tokens| ==> Field(tokens[i]) == Some(fs[i])
    ensures Fields(tokens) == Some(fs)
  {
    if tokens != [] {
      var rest, frest := tokens[1..], fs[1..];
      forall i | 0 <= i < |rest| ensures Field(rest[i]) == Some(frest[i]) {
        assert rest[i] == tokens[i + 1] && frest[i] == fs[i + 1];
      }
      FieldsOfWellFormed(rest, frest);
      assert Field(tokens[0]) == Some(fs[0]);
      assert fs == [fs[0]] + frest;
    }
  }

  /** The dictionary a comprehension builds from pairs: a later pair overwrites an earlier one. */
  function DictOf(ps: seq<(string, string)>): (m: Record)
    ensures m.Keys == set i | 0 <= i < |ps| :: ps[i].0
  {
    if ps == [] then map[]
    else
      var last := ps[|ps| - 1];
      var m := DictOf(ps[..|ps| - 1])[last.0 := last.1];
      assert m.Keys == set i | 0 <= i < |ps| :: ps[i].0 by {
        forall k | k in m.Keys ensures k in set i | 0 <= i < |ps| :: ps[i].0 {
          if k != last.0 {
            var i :| 0 <= i < |ps| - 1 && ps[..|ps| - 1][i].0 == k;
            assert ps[i].0 == k;
          }
        }
      }
      m
  }

  /** Appending a pair overwrites (or adds) its key. */
  lemma DictOfSnoc(ps: seq<(string, string)>, p: (string, string))
    ensures DictOf(ps + [p]) == DictOf(ps)[p.0 := p.1]
  {
    assert (ps + [p])[..|ps|] == ps;
  }

  /** The value recorded for a key is the one from its last occurrence. */
  lemma {:induction false} DictOfLastWins(ps: seq<(string, string)>, i: nat)
    requires i < |ps|
    requires forall j :: i < j < |ps| ==> ps[j].0 != ps[i].0
    ensures ps[i].0 in DictOf(ps) && DictOf(ps)[ps[i].0] == ps[i].1
  {
    if i < |ps| - 1 {
      var init := ps[..|ps| - 1];
      assert init[i] == ps[i];
      DictOfLastWins(init, i);
    }
  }

  /**
    The dictionary comprehension of `data2dic` over already split tokens:
    `None` when one token has no `=`.
  */
  function TokensToDict(tokens: seq<string>): (r: Option<Record>)
    ensures r.None? <==> exists t :: t in tokens && '=' !in t
    ensures tokens == [] ==> r == Some(map[])
  {
    match Fields(tokens)
    case None =>
      var i :| 0 <= i < |tokens| && '=' !in tokens[i];
      assert tokens[i] in tokens;
      None
    case Some(fs) => Some(DictOf(fs))
  }

  /**
    `data2dic`: split the line on whitespace runs, split every token at its
    first `=`, strip both halves. A single token without `=` makes the whole
    line `None`; a line without tokens gives the empty dictionary.
  */
  function Data2Dic(line: string): (r: Option<Record>)
    ensures r.None? <==> exists t :: t in Split(line) && '=' !in t
    ensures AllSpace(line) ==> r == Some(map[])
  {
    TokensToDict(Split(line))
  }

  /** The keys of a parsed line are exactly the stripped keys of its tokens. */
  lemma TokensToDictKeys(tokens: seq<string>)
    requires TokensToDict(tokens).Some?
    ensures forall k :: k in TokensToDict(tokens).value <==>
              exists i :: 0 <= i < |tokens| && Field(tokens[i]).Some? && Field(tokens[i]).value.0 == k
  {
    var fs := Fields(tokens).value;
    assert TokensToDict(tokens).value == DictOf(fs);
    forall k ensures k in DictOf(fs) <==>
              exists i :: 0 <= i < |tokens| && Field(tokens[i]).Some? && Field(tokens[i]).value.0 == k {
      if k in DictOf(fs) {
        var i :| 0 <= i < |fs| && fs[i].0 == k;
        assert Field(tokens[i]) == Some(fs[i]);
      }
      if exists i :: 0 <= i < |tokens| && Field(tokens[i]).Some? && Field(tokens[i]).value.0 == k {
        var i :| 0 <= i < |tokens| && Field(tokens[i]).Some? && Field(tokens[i]).value.0 == k;
        assert Field(tokens[i]) == Some(fs[i]);
      }
    }
  }

  /**
    A token whose key no later token repeats supplies that key's value:
    for a repeated key the last token wins.
  */
  lemma TokensToDictLastWins(tokens: seq<string>, i: nat, k: string, v: string)
    requires TokensToDict(tokens).Some?
    requires i < |tokens| && Field(tokens[i]) == Some((k, v))
    requires forall j :: i < j < |tokens| ==> Field(tokens[j]).None? || Field(tokens[j]).value.0 != k
    ensures k in TokensToDict(tokens).value && TokensToDict(tokens).value[k] == v
  {
    var fs := Fields(tokens).value;
    forall j | i < j < |fs| ensures fs[j].0 != fs[i].0 {
      assert Field(tokens[j]) == Some(fs[j]);
    }
    DictOfLastWins(fs, i);
  }

  /** A line of one token holds one field, whatever follows the first `=`. */
  lemma Data2DicSingleToken(line: string, k: string, v: string)
    requires IsWord(line) && line == k + "=" + v && '=' !in k
    ensures Data2Dic(line) == Some(map[Strip(k) := Strip(v)])
  {
    assert Join([line], " ") == line;
    SplitJoinRoundTrip([line]);
    SplitOnceUnique(line, '=', k, v);
    assert Field(line) == Some((Strip(k), Strip(v)));
    assert [line][0] == line && [line][1..] == [];
    assert Fields([]) == Some([]);
    var f := (Strip(k), Strip(v));
    assert Fields([line]) == Some([f] + []);
    assert [f] + [] == [f];
  }

  /** Only the first `=` separates: the value keeps any later `=`. */
  lemma Data2DicKeepsLaterEquals()
    ensures Data2Dic("k=a=b") == Some(map["k" := "a=b"])
  {
    StripKeeps("k");
    StripKeeps("a=b");
    Data2DicSingleToken("k=a=b", "k", "a=b");
  }

  /** No whitespace and no double quote: survives `split()` and `strip` untouched. */
  predicate Plain(s: string)
  {
    forall i :: 0 <= i < |s| ==> !IsSpace(s[i]) && s[i] != '"'
  }

  /** The audit line `type=ty k0="v0" k1="v1"`. */
  function ExecveLine(ty: string, k0: string, v0: string, k1: string, v1: string): string
  {
    Join(["type=" + ty, QuotedToken(k0, v0), QuotedToken(k1, v1)], " ")
  }

  /** The token `k="v"`. */
  function QuotedToken(k: string, v: string): string
  {
    k + "=\"" + v + "\""
  }

  lemma QuotedTokenIsWord(k: string, v: string)
    requires |k| > 0 && Plain(k) && Plain(v)
    ensures IsWord(QuotedToken(k, v))
  {
    var tok := QuotedToken(k, v);
    forall i | 0 <= i < |tok| ensures !IsSpace(tok[i]) {
      if i < |k| {
        assert tok[i] == k[i];
      } else if |k| + 2 <= i < |k| + 2 + |v| {
        assert tok[i] == v[i - |k| - 2];
      }
    }
  }

  lemma QuotedTokenField(k: string, v: string)
    requires |k| > 0 && Plain(k) && '=' !in k && Plain(v)
    ensures Field(QuotedToken(k, v)) == Some((k, v))
  {
    var tok := QuotedToken(k, v);
    assert tok == k + "=" + ("\"" + v + "\"");
    FieldOfToken(tok, k, "\"" + v + "\"");
    StripKeeps(k);
    StripQuoted(v);
  }

  lemma SplitExecveLine(ty: string, k0: string, v0: string, k1: string, v1: string)
    requires |ty| > 0 && Plain(ty) && |k0| > 0 && Plain(k0) && Plain(v0) && |k1| > 0 && Plain(k1) && Plain(v1)
    ensures Split(ExecveLine(ty, k0, v0, k1, v1)) == ["type=" + ty, QuotedToken(k0, v0), QuotedToken(k1, v1)]
  {
    var t0 := "type=" + ty;
    QuotedTokenIsWord(k0, v0);
    QuotedTokenIsWord(k1, v1);
    forall i | 0 <= i < |t0| ensures !IsSpace(t0[i]) {
      if i >= 5 { assert t0[i] == ty[i - 5]; }
    }
    SplitJoinRoundTrip([t0, QuotedToken(k0, v0), QuotedToken(k1, v1)]);
  }

  lemma TypeTokenField(ty: string)
    requires |ty| > 0 && Plain(ty)
    ensures Field("type=" + ty) == Some(("type", ty))
  {
    FieldOfToken("type=" + ty, "type", ty);
    StripKeeps("type");
    StripKeeps(ty);
  }

  lemma FieldsOfArguments(k0: string, v0: string, k1: string, v1: string)
    requires |k0| > 0 && Plain(k0) && '=' !in k0 && Plain(v0)
    requires |k1| > 0 && Plain(k1) && '=' !in k1 && Plain(v1)
    ensures Fields([QuotedToken(k0, v0), QuotedToken(k1, v1)]) == Some([(k0, v0), (k1, v1)])
  {
    QuotedTokenField(k0, v0);
    QuotedTokenField(k1, v1);
    FieldsOfWellFormed([QuotedToken(k0, v0), QuotedToken(k1, v1)], [(k0, v0), (k1, v1)]);
  }

  lemma FieldsOfExecveLine(ty: string, k0: string, v0: string, k1: string, v1: string)
    requires |ty| > 0 && Plain(ty)
    requires |k0| > 0 && Plain(k0) && '=' !in k0 && Plain(v0)
    requires |k1| > 0 && Plain(k1) && '=' !in k1 && Plain(v1)
    ensures Fields(["type=" + ty, QuotedToken(k0, v0), QuotedToken(k1, v1)]) == Some([("type", ty), (k0, v0), (k1, v1)])
  {
    var tokens := ["type=" + ty, QuotedToken(k0, v0), QuotedToken(k1, v1)];
    TypeTokenField(ty);
    FieldsOfArguments(k0, v0, k1, v1);
    assert tokens[0] == "type=" + ty;
    assert tokens[1..] == [QuotedToken(k0, v0), QuotedToken(k1, v1)];
    assert [("type", ty)] + [(k0, v0), (k1, v1)] == [("type", ty), (k0, v0), (k1, v1)];
  }

  /** The line `type=ty k0="v0" k1="v1"` parses to its three fields. */
  lemma Data2DicExecveLine(ty: string, k0: string, v0: string, k1: string, v1: string)
    requires |ty| > 0 && Plain(ty)
    requires |k0| > 0 && Plain(k0) && '=' !in k0 && Plain(v0)
    requires |k1| > 0 && Plain(k1) && '=' !in k1 && Plain(v1)
    ensures Data2Dic(ExecveLine(ty, k0, v0, k1, v1)) == Some(map["type" := ty, k0 := v0, k1 := v1])
  {
    var tokens := ["type=" + ty, QuotedToken(k0, v0), QuotedToken(k1, v1)];
    var fs := [("type", ty), (k0, v0), (k1, v1)];
    assert TokensToDict(tokens) == Some(DictOf(fs)) by {
      FieldsOfExecveLine(ty, k0, v0, k1, v1);
    }
    assert DictOf(fs) == map["type" := ty, k0 := v0, k1 := v1] by {
      var p0, p1 := [("type", ty)], [("type", ty), (k0, v0)];
      DictOfSnoc([], ("type", ty));
      assert [] + [("type", ty)] == p0;
      DictOfSnoc(p0, (k0, v0));
      assert p0 + [(k0, v0)] == p1;
      DictOfSnoc(p1, (k1, v1));
      assert p1 + [(k1, v1)] == fs;
    }
    SplitExecveLine(ty, k0, v0, k1, v1);
  }

  // ---------------------------------------------------------------------
  // filterdic
  // ---------------------------------------------------------------------

  /**
    The key pattern `a[0-9]+` under `re.match`, which anchors at the start
    only: an `a`, then an ASCII digit; anything may follow.
  */
  predicate IsArgKey(k: string)
  {
    |k| >= 2 && k[0] == 'a' && '0' <= k[1] <= '9'
  }

  /** `data.get('type', '')`. */
  function TypeOf(m: Record): string
  {
    if "type" in m then m["type"] else ""
  }

  /**
    `filterdic`: `None` for a `None` input or when the lowercased `type`
    differs from `typeline`; otherwise the sub-dictionary of argument keys.
  */
  function FilterDic(data: Option<Record>, typeline: string): (r: Option<Record>)
    ensures data.None? ==> r.None?
    ensures data.Some? ==> (r.Some? <==> Lower(TypeOf(data.value)) == typeline)
    ensures r.Some? ==> r.value.Keys <= data.value.Keys
    ensures r.Some? ==> forall k :: k in r.value ==> IsArgKey(k) && r.value[k] == data.value[k]
    ensures r.Some? ==> forall k :: k in data.value && IsArgKey(k) ==> k in r.value
  {
    match data
    case None => None
    case Some(m) =>
      if Lower(TypeOf(m)) == typeline then Some(map k | k in m && IsArgKey(k) :: m[k])
      else None
  }

  /** A record without a `type` field never passes a non-empty target. */
  lemma FilterDicNeedsType(m: Record, typeline: string)
    requires "type" !in m && typeline != ""
    ensures FilterDic(Some(m), typeline) == None
  {
  }

  /**
    The filter's own output has no `type` field, so filtering it again is
    rejected: the stage is not idempotent on its output.
  */
  lemma FilterDicNotReapplicable(data: Option<Record>, typeline: string)
    requires typeline != ""
    ensures FilterDic(FilterDic(data, typeline), typeline) == None
  {
    var r := FilterDic(data, typeline);
    if r.Some? {
      assert !IsArgKey("type");
      assert "type" !in r.value;
      assert TypeOf(r.value) == "";
    }
  }

  /** The `type` comparison ignores case. */
  lemma FilterDicIgnoresCase()
    ensures FilterDic(Some(map["type" := "ExecVE", "a0" := "ls"]), "execve") == Some(map["a0" := "ls"])
  {
    var m := map["type" := "ExecVE", "a0" := "ls"];
    assert Lower("ExecVE") == "execve";
    assert !IsArgKey("type");
    assert IsArgKey("a0");
    assert (map k | k in m && IsArgKey(k) :: m[k]) == map["a0" := "ls"];
  }

  /** The key pattern is anchored at the start only. */
  lemma FilterDicMatchesPrefixOnly()
    ensures FilterDic(Some(map["type" := "execve", "a1x" := "p", "xa1" := "q", "a" := "r"]), "execve")
            == Some(map["a1x" := "p"])
  {
    var m := map["type" := "execve", "a1x" := "p", "xa1" := "q", "a" := "r"];
    assert Lower("execve") == "execve";
    assert IsArgKey("a1x") && !IsArgKey("xa1") && !IsArgKey("a") && !IsArgKey("type");
    assert (map k | k in m && IsArgKey(k) :: m[k]) == map["a1x" := "p"];
  }
}
