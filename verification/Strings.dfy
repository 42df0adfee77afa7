// The few facts about Go's strings the components below rely on: substring and
// prefix search, and the byte order of strings (which, for UTF-8, is the order
// of their code points, hence the order of Dafny's characters).
module Strings {

  predicate HasPrefix(s: string, prefix: string) {
    prefix <= s
  }

  predicate Contains(s: string, sub: string) {
    exists i :: 0 <= i <= |s| && sub <= s[i..]
  }

  // Lexicographic "less than".
  predicate Less(a: string, b: string) {
    if b == [] then false
    else if a == [] then true
    else a[0] < b[0] || (a[0] == b[0] && Less(a[1..], b[1..]))
  }

  lemma {:induction false} LessIrreflexive(a: string)
    ensures !Less(a, a)
  {
    if a != [] {
      LessIrreflexive(a[1..]);
    }
  }

  lemma {:induction false} LessTransitive(a: string, b: string, c: string)
    requires Less(a, b) && Less(b, c)
    ensures Less(a, c)
  {
    if a != [] && a[0] == b[0] && b[0] == c[0] {
      LessTransitive(a[1..], b[1..], c[1..]);
    }
  }

  lemma {:induction false} LessTotal(a: string, b: string)
    ensures Less(a, b) || a == b || Less(b, a)
  {
    if a != [] && b != [] && a[0] == b[0] {
      LessTotal(a[1..], b[1..]);
      assert a == [a[0]] + a[1..] && b == [b[0]] + b[1..];
    }
  }

  lemma LessIsAsymmetric(a: string, b: string)
    requires Less(a, b)
    ensures !Less(b, a)
  {
  }

  lemma LessSplits(a: string, b: string, c: string)
    requires Less(a, c)
    ensures Less(a, b) || Less(b, c)
  {
  }

  // What the three searches and comparisons mean.

  lemma PrefixIff(s: string, prefix: string)
    ensures HasPrefix(s, prefix) <==> exists rest: string :: s == prefix + rest
  {
    if HasPrefix(s, prefix) {
      assert s == prefix + s[|prefix|..];
    }
  }

  lemma ContainsIff(s: string, sub: string)
    ensures Contains(s, sub) <==> exists before: string, after: string :: s == before + sub + after
  {
    if Contains(s, sub) {
      var i :| 0 <= i <= |s| && sub <= s[i..];
      assert s[i..] == sub + s[i..][|sub|..];
      assert s == s[..i] + sub + s[i..][|sub|..];
    }
    if before: string, after: string :| s == before + sub + after {
      assert s[|before|..] == sub + after;
    }
  }

  // a and b agree below k, where a has ended or has the smaller character.
  predicate DifferAt(a: string, b: string, k: nat) {
    k <= |a| && k < |b| && a[..k] == b[..k] && (k == |a| || a[k] < b[k])
  }

  lemma HeadsAgree(a: string, b: string, k: nat)
    requires DifferAt(a, b, k)
    ensures k > 0 ==> a != [] && b != [] && a[0] == b[0]
  {
    if k > 0 {
      assert a[..k][0] == a[0] && b[..k][0] == b[0];
    }
  }

  lemma {:induction false} LessIff(a: string, b: string)
    ensures Less(a, b) <==> exists k: nat :: DifferAt(a, b, k)
  {
    if b != [] {
      if a == [] || a[0] != b[0] {
        if Less(a, b) {
          assert DifferAt(a, b, 0);
        }
        if k: nat :| DifferAt(a, b, k) {
          HeadsAgree(a, b, k);
        }
      } else {
        LessIff(a[1..], b[1..]);
        if Less(a, b) {
          var k: nat :| DifferAt(a[1..], b[1..], k);
          assert a[..k + 1] == [a[0]] + a[1..][..k] && b[..k + 1] == [b[0]] + b[1..][..k];
          assert DifferAt(a, b, k + 1);
        }
        if k: nat :| DifferAt(a, b, k) {
          assert k > 0;
          assert a[1..][..k - 1] == a[..k][1..] && b[1..][..k - 1] == b[..k][1..];
          assert DifferAt(a[1..], b[1..], k - 1);
        }
      }
    }
  }
}
