/** The order of keys: that of std::string, in which a std::map is walked. */
module Keys {

  /** std::string's operator <. */
  predicate KeyLess(a: string, b: string)
  {
    b != [] && (a == [] || a[0] < b[0] || (a[0] == b[0] && KeyLess(a[1..], b[1..])))
  }

  lemma {:induction false} KeyLessIsTotal(a: string, b: string)
    ensures a == b || KeyLess(a, b) || KeyLess(b, a)
  {
    if a != [] && b != [] && a[0] == b[0] {
      KeyLessIsTotal(a[1..], b[1..]);
      assert a == [a[0]] + a[1..] && b == [b[0]] + b[1..];
    }
  }

  lemma {:induction false} KeyLessIsStrict(a: string, b: string)
    ensures KeyLess(a, b) ==> !KeyLess(b, a) && a != b
  {
    if a != [] && b != [] && a[0] == b[0] {
      KeyLessIsStrict(a[1..], b[1..]);
    }
  }

  lemma {:induction false} KeyLessIsTransitive(a: string, b: string, c: string)
    requires KeyLess(a, b) && KeyLess(b, c)
    ensures KeyLess(a, c)
  {
    if a != [] && a[0] == b[0] == c[0] {
      KeyLessIsTransitive(a[1..], b[1..], c[1..]);
    }
  }

  /** At the first place where two keys differ the one in front has ended, or has the lesser
      character. */
  ghost predicate InFront(a: string, b: string)
  {
    exists n :: 0 <= n <= |a| && n < |b| && a[..n] == b[..n] && (n < |a| ==> a[n] < b[n])
  }

  lemma {:induction false} KeyLessIff(a: string, b: string)
    ensures KeyLess(a, b) <==> InFront(a, b)
  {
    if a == [] || b == [] {
      assert a[..0] == b[..0];
    } else {
      KeyLessIff(a[1..], b[1..]);
      if a[0] < b[0] {
        assert a[..0] == b[..0];
      } else if a[0] == b[0] {
        FrontOfRest(a, b);
      }
    }
  }

  lemma FrontOfRest(a: string, b: string)
    requires a != [] && b != [] && a[0] == b[0]
    ensures InFront(a, b) <==> InFront(a[1..], b[1..])
  {
    if InFront(a, b) {
      var n :| 0 <= n <= |a| && n < |b| && a[..n] == b[..n] && (n < |a| ==> a[n] < b[n]);
      assert a[1..][..n - 1] == a[..n][1..] && b[1..][..n - 1] == b[..n][1..];
    }
    if InFront(a[1..], b[1..]) {
      var n :| 0 <= n <= |a[1..]| && n < |b[1..]| && a[1..][..n] == b[1..][..n] && (n < |a[1..]| ==> a[1..][n] < b[1..][n]);
      assert a[..n + 1] == [a[0]] + a[1..][..n] && b[..n + 1] == [b[0]] + b[1..][..n];
    }
  }

  /** The key with which a walk over a set of keys begins. */
  lemma {:induction false} LeastKey(keys: set<string>) returns (least: string)
    requires keys != {}
    ensures least in keys && forall k :: k in keys && k != least ==> KeyLess(least, k)
    decreases |keys|
  {
    var k :| k in keys;
    var others := keys - {k};
    if others == {} {
      assert keys == {k};
      least := k;
    } else {
      least := LeastKey(others);
      KeyLessIsTotal(k, least);
      if KeyLess(k, least) {
        forall q | q in keys && q != k ensures KeyLess(k, q) {
          if q != least {
            KeyLessIsTransitive(k, least, q);
          }
        }
        least := k;
      }
    }
  }
}
