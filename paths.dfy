/** `BigArchive.normalize_path` (big/big.py:367-380): the key under which the
    patcher compares a requested inner file with the paths of the entry table. */
module Paths {
  import opened Text

  /** One character as the path key sees it: a backslash becomes a slash and an
      ASCII capital its small letter. */
  function FoldChar(c: char): char
  {
    LowerChar(if c == '\\' then '/' else c)
  }

  /** `path.replace("\\", "/").lower().strip()`. The key holds no backslash and
      no ASCII capital, and neither starts nor ends with whitespace. */
  function NormalizePath(p: string): (r: string)
    ensures '\\' !in r
    ensures forall k :: 0 <= k < |r| ==> !IsUpperAscii(r[k])
    ensures r == [] || (!IsSpace(r[0]) && !IsSpace(r[|r| - 1]))
    ensures |r| <= |p|
  {
    var folded := Lower(ReplaceChar(p, '\\', '/'));
    StripSlice(folded);
    Strip(folded)
  }

  /** Normalising a key again leaves it as it is. */
  lemma NormalizeIdempotent(p: string)
    ensures NormalizePath(NormalizePath(p)) == NormalizePath(p)
  {
    var r := NormalizePath(p);
    var replaced := ReplaceChar(r, '\\', '/');
    assert replaced == r;
    var lowered := Lower(replaced);
    assert lowered == r;
    StripFixed(r);
  }

  /** Two paths that differ only in ASCII letter case and in the direction of
      their slashes have the same key. */
  lemma NormalizeFoldsCaseAndSlashes(p: string, q: string)
    requires |p| == |q|
    requires forall k :: 0 <= k < |p| ==> FoldChar(p[k]) == FoldChar(q[k])
    ensures NormalizePath(p) == NormalizePath(q)
  {
    var fp := Lower(ReplaceChar(p, '\\', '/'));
    var fq := Lower(ReplaceChar(q, '\\', '/'));
    assert fp == fq by {
      forall k | 0 <= k < |p| ensures fp[k] == fq[k] {
        assert fp[k] == FoldChar(p[k]);
        assert fq[k] == FoldChar(q[k]);
      }
    }
  }

  /** Whitespace around a path does not change its key. */
  lemma NormalizeSurroundingSpace(a: string, p: string, b: string)
    requires AllSpace(a) && AllSpace(b)
    ensures NormalizePath(a + p + b) == NormalizePath(p)
  {
    var fa := Lower(ReplaceChar(a, '\\', '/'));
    var fp := Lower(ReplaceChar(p, '\\', '/'));
    var fb := Lower(ReplaceChar(b, '\\', '/'));
    var whole := Lower(ReplaceChar(a + p + b, '\\', '/'));
    assert whole == fa + fp + fb by {
      forall k | 0 <= k < |whole| ensures whole[k] == (fa + fp + fb)[k] {
        assert whole[k] == FoldChar((a + p + b)[k]);
        if k < |a| {
          assert (fa + fp + fb)[k] == fa[k] == FoldChar(a[k]);
        } else if k < |a| + |p| {
          assert (fa + fp + fb)[k] == fp[k - |a|] == FoldChar(p[k - |a|]);
        } else {
          assert (fa + fp + fb)[k] == fb[k - |a| - |p|] == FoldChar(b[k - |a| - |p|]);
        }
      }
    }
    assert AllSpace(fa) by {
      forall k | 0 <= k < |fa| ensures IsSpace(fa[k]) { assert fa[k] == a[k]; }
    }
    assert AllSpace(fb) by {
      forall k | 0 <= k < |fb| ensures IsSpace(fb[k]) { assert fb[k] == b[k]; }
    }
    StripSurrounded(fa, fp, fb);
  }

  /** The inner path of the stock camera-height parameter (big/patch.py:28)
      has the key `data/ini/gamedata.ini`. */
  lemma NormalizeGameDataPath()
    ensures NormalizePath("Data\\INI\\GameData.ini") == "data/ini/gamedata.ini"
    ensures NormalizePath("data/ini/gamedata.ini") == "data/ini/gamedata.ini"
  {
    var p := "Data\\INI\\GameData.ini";
    var folded := Lower(ReplaceChar(p, '\\', '/'));
    assert folded == "data/ini/gamedata.ini";
    StripFixed(folded);
    NormalizeIdempotent(p);
  }
}
