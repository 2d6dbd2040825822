/** The two linear searches of slice/slice.go. Both scan from the front and
    stop at the first hit; a result is Go's `(index, ok)` pair, `(-1, false)`
    when nothing matches. The scanned slice is a value here, so neither
    search can change it. */
module Slice {
  import Text

  /** The scan of Find from index `i` on. */
  function FindFrom(s: seq<string>, val: string, i: nat): (r: (int, bool))
    requires i <= |s|
    ensures r.1 ==> i <= r.0 < |s| && s[r.0] == val
    ensures r.1 ==> forall j :: i <= j < r.0 ==> s[j] != val
    ensures !r.1 ==> r.0 == -1 && forall j :: i <= j < |s| ==> s[j] != val
    decreases |s| - i
  {
    if i == |s| then (-1, false)
    else if s[i] == val then (i, true)
    else FindFrom(s, val, i + 1)
  }

  /** slice.Find: the first index whose element equals `val`. */
  function Find(s: seq<string>, val: string): (r: (int, bool))
    ensures r.1 ==> 0 <= r.0 < |s| && s[r.0] == val
    ensures r.1 ==> forall j :: 0 <= j < r.0 ==> s[j] != val
    ensures !r.1 <==> r.0 == -1
    ensures !r.1 <==> val !in s
  {
    FindFrom(s, val, 0)
  }

  /** The scan of Has from index `i` on. */
  function HasFrom(s: seq<string>, val: string, i: nat): (r: (int, bool))
    requires i <= |s|
    ensures r.1 ==> i <= r.0 < |s| && Text.Contains(s[r.0], val)
    ensures r.1 ==> forall j :: i <= j < r.0 ==> !Text.Contains(s[j], val)
    ensures !r.1 ==> r.0 == -1 && forall j :: i <= j < |s| ==> !Text.Contains(s[j], val)
    decreases |s| - i
  {
    if i == |s| then (-1, false)
    else if Text.Contains(s[i], val) then (i, true)
    else HasFrom(s, val, i + 1)
  }

  /** slice.Has: the first index whose element contains `val` as a substring. */
  function Has(s: seq<string>, val: string): (r: (int, bool))
    ensures r.1 ==> 0 <= r.0 < |s| && Text.Contains(s[r.0], val)
    ensures r.1 ==> forall j :: 0 <= j < r.0 ==> !Text.Contains(s[j], val)
    ensures !r.1 <==> r.0 == -1
    ensures !r.1 <==> forall j :: 0 <= j < |s| ==> !Text.Contains(s[j], val)
  {
    HasFrom(s, val, 0)
  }

  /** Every element contains the empty text, so Has stops at the first element. */
  lemma HasEmpty(s: seq<string>)
    requires |s| > 0
    ensures Has(s, "") == (0, true)
  {
    assert Text.OccursAt(s[0], "", 0);
  }

  /** An exact match is also a substring match, so Has finds something no
      later than Find does. */
  lemma FindThenHas(s: seq<string>, val: string)
    requires Find(s, val).1
    ensures Has(s, val).1 && Has(s, val).0 <= Find(s, val).0
  {
    var i := Find(s, val).0;
    assert Text.OccursAt(s[i], val, 0);
  }

  /** Has may hit strictly earlier: "master" is inside "nomaster" but is not
      that element. */
  lemma HasIsLooserThanFind()
    ensures Find(["nomaster", "master"], "master") == (1, true)
    ensures Has(["nomaster", "master"], "master") == (0, true)
  {
    assert Text.OccursAt("nomaster", "master", 2);
  }
}
