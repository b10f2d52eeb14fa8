/** The community slug of backEnd/src/controllers/community.controller.js:
    the name lower-cased, every character outside [a-z0-9] replaced by '-',
    runs of '-' collapsed to one, and one leading and one trailing '-'
    removed. */
module Slugs {
  import opened Text

  /** The characters `[a-z0-9]` keeps. */
  predicate IsSlugChar(c: char) {
    'a' <= c <= 'z' || '0' <= c <= '9'
  }

  /** `toLowerCase().replace(/[^a-z0-9]/g, '-')`. */
  function Dashed(s: string): (r: string)
    ensures |r| == |s|
    ensures forall i :: 0 <= i < |s| ==> r[i] == if IsSlugChar(LowerChar(s[i])) then LowerChar(s[i]) else '-'
  {
    if s == [] then []
    else [if IsSlugChar(LowerChar(s[0])) then LowerChar(s[0]) else '-'] + Dashed(s[1..])
  }

  /** Two dashes in a row. */
  predicate NoDoubleDash(s: string) {
    forall i :: 0 <= i < |s| - 1 ==> !(s[i] == '-' && s[i + 1] == '-')
  }

  /** Only slug characters and dashes. */
  predicate SlugAlphabet(s: string) {
    forall i :: 0 <= i < |s| ==> IsSlugChar(s[i]) || s[i] == '-'
  }

  /** `replace(/-+/g, '-')`: every run of dashes becomes one dash. */
  function Squeeze(s: string): (r: string)
    ensures |s| > 0 <==> |r| > 0
    ensures |r| > 0 ==> r[0] == s[0] && r[|r| - 1] == s[|s| - 1]
    ensures NoDoubleDash(r)
    ensures forall c :: c in r ==> c in s
  {
    if |s| <= 1 then s
    else if s[0] == '-' && s[1] == '-' then Squeeze(s[1..])
    else
      var rest := Squeeze(s[1..]);
      assert forall c :: c in [s[0]] + rest ==> c in s by {
        forall c | c in [s[0]] + rest ensures c in s {
          if c != s[0] {
            assert c in s[1..];
          }
        }
      }
      [s[0]] + rest
  }

  /** `replace(/^-|-$/g, '')`: one leading and one trailing dash go. */
  function Trimmed(s: string): (r: string)
  {
    var t := if |s| > 0 && s[0] == '-' then s[1..] else s;
    if |t| > 0 && t[|t| - 1] == '-' then t[..|t| - 1] else t
  }

  /** The slug of a community name. */
  function Slug(name: string): (r: string)
  {
    Trimmed(Squeeze(Dashed(name)))
  }

  /** The shape of a slug: only `[a-z0-9-]`, no two dashes in a row, and no
      dash at either end. */
  predicate IsSlug(s: string) {
    && SlugAlphabet(s)
    && NoDoubleDash(s)
    && (|s| > 0 ==> s[0] != '-' && s[|s| - 1] != '-')
  }

  /** Trimming a dash-squeezed string leaves no dash at either end, and
      keeps the rest. */
  lemma TrimmedShape(s: string)
    requires NoDoubleDash(s)
    ensures var r := Trimmed(s);
      && NoDoubleDash(r)
      && (|r| > 0 ==> r[0] != '-' && r[|r| - 1] != '-')
      && (forall c :: c in r ==> c in s)
  {
    var t := if |s| > 0 && s[0] == '-' then s[1..] else s;
    assert NoDoubleDash(t) by {
      forall i | 0 <= i < |t| - 1 ensures !(t[i] == '-' && t[i + 1] == '-') {
        if |s| > 0 && s[0] == '-' {
          assert t[i] == s[i + 1] && t[i + 1] == s[i + 2];
        }
      }
    }
    assert |t| > 0 ==> t[0] != '-' by {
      if |t| > 0 && |s| > 0 && s[0] == '-' {
        assert t[0] == s[1];
      }
    }
    var r := Trimmed(s);
    assert forall c :: c in r ==> c in t;
    assert forall c :: c in t ==> c in s;
    if |t| > 0 && t[|t| - 1] == '-' {
      assert r == t[..|t| - 1];
      if |r| > 0 {
        assert r[|r| - 1] == t[|t| - 2];
      }
    }
  }

  /** Every slug has the shape the pattern promises. */
  lemma SlugIsSlug(name: string)
    ensures IsSlug(Slug(name))
  {
    var d := Dashed(name);
    var q := Squeeze(d);
    assert SlugAlphabet(d);
    assert SlugAlphabet(q) by {
      forall i | 0 <= i < |q| ensures IsSlugChar(q[i]) || q[i] == '-' {
        assert q[i] in q;
        assert q[i] in d;
      }
    }
    TrimmedShape(q);
    var r := Slug(name);
    forall i | 0 <= i < |r| ensures IsSlugChar(r[i]) || r[i] == '-' {
      assert r[i] in r;
      assert r[i] in q;
    }
  }

  /** A string without double dashes squeezes to itself. */
  lemma {:induction false} SqueezeFixed(s: string)
    requires NoDoubleDash(s)
    ensures Squeeze(s) == s
  {
    if |s| > 1 {
      assert NoDoubleDash(s[1..]) by {
        forall i | 0 <= i < |s[1..]| - 1 ensures !(s[1..][i] == '-' && s[1..][i + 1] == '-') {
          assert s[1..][i] == s[i + 1] && s[1..][i + 1] == s[i + 2];
        }
      }
      SqueezeFixed(s[1..]);
      assert !(s[0] == '-' && s[1] == '-');
      assert s == [s[0]] + s[1..];
    }
  }

  /** A slug is its own slug: generating it again changes nothing. */
  lemma SlugIdempotent(name: string)
    ensures Slug(Slug(name)) == Slug(name)
  {
    var s := Slug(name);
    SlugIsSlug(name);
    var d := Dashed(s);
    assert d == s by {
      forall i | 0 <= i < |s| ensures d[i] == s[i] {
        assert IsSlugChar(s[i]) || s[i] == '-';
      }
    }
    SqueezeFixed(s);
  }

  /** The letters and digits of a string, in order. */
  function Alnum(s: string): (r: string)
    ensures forall c :: c in r ==> IsSlugChar(c)
  {
    if s == [] then []
    else if IsSlugChar(s[0]) then [s[0]] + Alnum(s[1..])
    else Alnum(s[1..])
  }

  /** Replacing by dashes keeps every letter and digit of the lower-cased
      name. */
  lemma {:induction false} DashedKeepsAlnum(s: string)
    ensures Alnum(Dashed(s)) == Alnum(ToLower(s))
  {
    if s != [] {
      DashedKeepsAlnum(s[1..]);
      assert Dashed(s)[1..] == Dashed(s[1..]);
      assert ToLower(s)[1..] == ToLower(s[1..]);
    }
  }

  /** Squeezing removes dashes only. */
  lemma {:induction false} SqueezeKeepsAlnum(s: string)
    ensures Alnum(Squeeze(s)) == Alnum(s)
  {
    if |s| > 1 {
      SqueezeKeepsAlnum(s[1..]);
      if !(s[0] == '-' && s[1] == '-') {
        assert ([s[0]] + Squeeze(s[1..]))[1..] == Squeeze(s[1..]);
      }
    }
  }

  /** Dropping one dash at either end keeps the letters and digits. */
  lemma TrimmedKeepsAlnum(s: string)
    ensures Alnum(Trimmed(s)) == Alnum(s)
  {
    var t := if |s| > 0 && s[0] == '-' then s[1..] else s;
    assert Alnum(t) == Alnum(s);
    if |t| > 0 && t[|t| - 1] == '-' {
      AlnumDropLastDash(t);
    }
  }

  lemma {:induction false} AlnumDropLastDash(t: string)
    requires |t| > 0 && t[|t| - 1] == '-'
    ensures Alnum(t[..|t| - 1]) == Alnum(t)
  {
    if |t| > 1 {
      AlnumDropLastDash(t[1..]);
      assert t[1..][..|t| - 2] == t[..|t| - 1][1..];
    }
  }

  /** Nothing but separators is lost: the slug holds exactly the letters and
      digits of the lower-cased name, in order. */
  lemma SlugKeepsAlnum(name: string)
    ensures Alnum(Slug(name)) == Alnum(ToLower(name))
  {
    DashedKeepsAlnum(name);
    SqueezeKeepsAlnum(Dashed(name));
    TrimmedKeepsAlnum(Squeeze(Dashed(name)));
  }
}
