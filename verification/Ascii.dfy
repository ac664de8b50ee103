/** Case folding of ASCII letters, which SQL's LOWER and the parser of policies share. */
module Ascii {

  function Lower(s: string): (r: string)
    ensures |r| == |s|
  {
    seq(|s|, i requires 0 <= i < |s| => if 'A' <= s[i] <= 'Z' then s[i] - 'A' + 'a' else s[i])
  }

  /** Letter by letter the same, or one of them a capital and the other its small letter. */
  predicate SameButCase(a: string, b: string) {
    |a| == |b| &&
    forall k :: 0 <= k < |a| ==>
      a[k] == b[k] ||
      ('A' <= a[k] <= 'Z' && b[k] as int == a[k] as int + 32) ||
      ('A' <= b[k] <= 'Z' && a[k] as int == b[k] as int + 32)
  }

  lemma SameLower(a: string, b: string)
    ensures Lower(a) == Lower(b) <==> SameButCase(a, b)
  {
    if SameButCase(a, b) {
      assert forall k :: 0 <= k < |a| ==> Lower(a)[k] == Lower(b)[k];
    }
    if Lower(a) == Lower(b) {
      forall k | 0 <= k < |a|
        ensures a[k] == b[k] || ('A' <= a[k] <= 'Z' && b[k] as int == a[k] as int + 32) ||
                ('A' <= b[k] <= 'Z' && a[k] as int == b[k] as int + 32)
      {
        assert |a| == |Lower(a)| == |b| && Lower(a)[k] == Lower(b)[k];
      }
    }
  }

  /** A text that folding leaves alone is one without capitals. */
  lemma LowerFixed(s: string)
    ensures Lower(s) == s <==> forall k :: 0 <= k < |s| ==> !('A' <= s[k] <= 'Z')
  {
    if Lower(s) == s {
      forall k | 0 <= k < |s| ensures !('A' <= s[k] <= 'Z') {
        assert Lower(s)[k] == s[k];
      }
    }
  }
}
