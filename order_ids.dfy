/**
 * Order ids, `generateOrderId`: the first three characters of the trimmed
 * customer name, upper-cased, followed by one more than the number of orders
 * whose id is `LIKE` that prefix followed by `%`, written with at least three
 * digits. The count is SQLite's `LIKE` taken literally: `%` matches any run of
 * characters, `_` any one character, and letters compare ASCII-case-blind.
 */
module OrderIds {
  import opened Text

  // ---------------------------------------------------------------------
  // SQLite LIKE, without an ESCAPE clause
  // ---------------------------------------------------------------------

  /** `s LIKE pat`. */
  predicate LikeMatch(s: string, pat: string)
    decreases |s| + |pat|
  {
    if pat == [] then s == []
    else if pat[0] == '%' then LikeMatch(s, pat[1..]) || (s != [] && LikeMatch(s[1..], pat))
    else s != [] && (pat[0] == '_' || LowerChar(s[0]) == LowerChar(pat[0])) && LikeMatch(s[1..], pat[1..])
  }

  /** A trailing `%` matches whatever is left. */
  lemma {:induction false} LikeAnyTail(rest: string)
    ensures LikeMatch(rest, "%")
  {
    if rest != [] {
      LikeAnyTail(rest[1..]);
    }
  }

  /** Every string that starts with `p` is `LIKE p%`, wildcards in `p` or not. */
  lemma {:induction false} LikeSelfPrefix(p: string, rest: string)
    ensures LikeMatch(p + rest, p + "%")
  {
    if p == [] {
      assert p + rest == rest && p + "%" == "%";
      LikeAnyTail(rest);
    } else {
      LikeSelfPrefix(p[1..], rest);
      assert (p + rest)[1..] == p[1..] + rest;
      assert (p + "%")[1..] == p[1..] + "%";
      if p[0] == '%' {
        // The `%` takes exactly the one character it stands for.
        assert LikeMatch((p + rest)[1..], (p + "%")[1..]);
        LikeEmptyPercent(p[1..] + rest, p[1..] + "%");
      }
    }
  }

  /** A `%` in front of a pattern may match nothing. */
  lemma LikeEmptyPercent(s: string, pat: string)
    requires LikeMatch(s, pat)
    ensures s != [] ==> LikeMatch(s, "%" + pat) && LikeMatch([s[0]] + s, "%" + pat)
  {
    assert ("%" + pat)[1..] == pat;
    if s != [] {
      assert ([s[0]] + s)[1..] == s;
    }
  }

  /** A pattern without wildcards: `s LIKE p%` exactly when `s` starts with `p`,
      letters compared without regard to ASCII case. */
  predicate Literal(p: string)
  {
    forall i :: 0 <= i < |p| ==> p[i] != '%' && p[i] != '_'
  }

  predicate StartsCaseBlind(s: string, p: string)
  {
    |p| <= |s| && forall i :: 0 <= i < |p| ==> LowerChar(s[i]) == LowerChar(p[i])
  }

  lemma {:induction false} LikeLiteralPrefix(s: string, p: string)
    requires Literal(p)
    ensures LikeMatch(s, p + "%") <==> StartsCaseBlind(s, p)
  {
    if p == [] {
      assert p + "%" == "%";
      LikeAnyTail(s);
    } else {
      assert (p + "%")[1..] == p[1..] + "%";
      if s != [] {
        LikeLiteralPrefix(s[1..], p[1..]);
        if StartsCaseBlind(s[1..], p[1..]) && LowerChar(s[0]) == LowerChar(p[0]) {
          assert StartsCaseBlind(s, p) by {
            forall i | 0 < i < |p| ensures LowerChar(s[i]) == LowerChar(p[i]) {
              assert s[1..][i - 1] == s[i];
            }
          }
        }
        if StartsCaseBlind(s, p) {
          assert StartsCaseBlind(s[1..], p[1..]) by {
            forall i | 0 <= i < |p| - 1 ensures LowerChar(s[1..][i]) == LowerChar(p[1..][i]) {
              assert s[1..][i] == s[i + 1];
            }
          }
        }
      }
    }
  }

  // ---------------------------------------------------------------------
  // Counting and the id itself
  // ---------------------------------------------------------------------

  /** `SELECT COUNT(*) FROM orders WHERE id LIKE '<prefix>%'`. */
  function MatchCount(ids: seq<string>, prefix: string): nat
  {
    if ids == [] then 0
    else MatchCount(ids[..|ids| - 1], prefix) + (if LikeMatch(ids[|ids| - 1], prefix + "%") then 1 else 0)
  }

  /** `firstName.substring(0, 3).toUpperCase()` */
  function Prefix(name: string): string
  {
    Upper(if |name| <= 3 then name else name[..3])
  }

  /** `${prefix}${(count + 1).toString().padStart(3, '0')}` */
  function OrderId(prefix: string, count: nat): string
  {
    prefix + PadStart3(Digits(count + 1))
  }

  /** The id the next order of a customer named `name` receives. */
  function NextOrderId(ids: seq<string>, name: string): string
  {
    OrderId(Prefix(name), MatchCount(ids, Prefix(name)))
  }

  /** The prefix is the upper-cased first three characters, or the whole name when shorter. */
  lemma PrefixSpec(name: string)
    ensures |Prefix(name)| == if |name| <= 3 then |name| else 3
    ensures forall i :: 0 <= i < |Prefix(name)| ==> Prefix(name)[i] == UpperChar(name[i])
    ensures forall i :: 0 <= i < |Prefix(name)| ==> !('a' <= Prefix(name)[i] <= 'z')
  {
  }

  /** An order id reads back as its prefix followed by the digits of `count + 1`:
      three of them below 1000, more after. */
  lemma OrderIdDecodes(prefix: string, count: nat)
    ensures var id := OrderId(prefix, count);
      && |prefix| + 3 <= |id| && id[..|prefix|] == prefix
      && AllDigits(id[|prefix|..]) && Value(id[|prefix|..]) == count + 1
      && (count < 999 ==> |id| == |prefix| + 3)
  {
    PaddedDecodes(count + 1);
    var id := OrderId(prefix, count);
    assert id[|prefix|..] == PadStart3(Digits(count + 1));
  }

  /** Two orders with the same prefix and different counts never share an id. */
  lemma OrderIdInjective(prefix: string, c1: nat, c2: nat)
    requires OrderId(prefix, c1) == OrderId(prefix, c2)
    ensures c1 == c2
  {
    OrderIdDecodes(prefix, c1);
    OrderIdDecodes(prefix, c2);
  }

  /** The count never exceeds the number of orders and only grows as orders are added. */
  lemma {:induction false} MatchCountGrows(ids: seq<string>, prefix: string, n: nat)
    requires n <= |ids|
    ensures MatchCount(ids[..n], prefix) <= MatchCount(ids, prefix) <= |ids|
    decreases |ids|
  {
    if ids != [] {
      var init := ids[..|ids| - 1];
      if n == |ids| {
        assert ids[..n] == ids;
        MatchCountGrows(init, prefix, 0);
      } else {
        assert init[..n] == ids[..n];
        MatchCountGrows(init, prefix, n);
      }
    }
  }

  /** Storing a generated id raises its prefix's count by exactly one, so the next
      customer with the same prefix gets the next number. */
  lemma CountAdvances(ids: seq<string>, prefix: string)
    ensures MatchCount(ids + [OrderId(prefix, MatchCount(ids, prefix))], prefix) == MatchCount(ids, prefix) + 1
  {
    var id := OrderId(prefix, MatchCount(ids, prefix));
    LikeSelfPrefix(prefix, PadStart3(Digits(MatchCount(ids, prefix) + 1)));
    assert (ids + [id])[..|ids|] == ids;
  }

  // ---------------------------------------------------------------------
  // Freshness
  // ---------------------------------------------------------------------

  /** The ids of a table filled only by order submissions: entry `i` was generated
      from prefix `prefixes[i]` against the ids stored before it. */
  predicate GeneratedWith(ids: seq<string>, prefixes: seq<string>)
  {
    |prefixes| == |ids| &&
    forall i :: 0 <= i < |ids| ==> ids[i] == OrderId(prefixes[i], MatchCount(ids[..i], prefixes[i]))
  }

  /** Below 1000 every id ends in exactly three digits, so an id determines both its
      prefix and its number. */
  lemma ShortIdsDetermine(p: string, c: nat, q: string, d: nat)
    requires c < 999 && d < 999 && OrderId(p, c) == OrderId(q, d)
    ensures p == q && c == d
  {
    var id := OrderId(p, c);
    OrderIdDecodes(p, c);
    OrderIdDecodes(q, d);
    assert id[..|p|] == p && id[..|q|] == q;
    assert id[|p|..] == id[|q|..];
  }

  /** An entry generated from prefix `p` is counted for `p`, so that prefix's count
      has moved past the number the entry carries. */
  lemma EntryCounted(ids: seq<string>, p: string, i: nat)
    requires i < |ids| && ids[i] == OrderId(p, MatchCount(ids[..i], p))
    ensures MatchCount(ids[..i], p) < MatchCount(ids, p)
  {
    var before := ids[..i];
    CountAdvances(before, p);
    assert ids[..i + 1] == before + [ids[i]];
    MatchCountGrows(ids, p, i + 1);
  }

  /** While fewer than 999 orders are stored, every generated id is new, so the
      INSERT never hits the primary key: an earlier id with the same prefix and
      number was counted, and the count has moved past it. */
  lemma NextIdFresh(ids: seq<string>, prefixes: seq<string>, prefix: string)
    requires GeneratedWith(ids, prefixes) && |ids| < 999
    ensures OrderId(prefix, MatchCount(ids, prefix)) !in ids
  {
    var c := MatchCount(ids, prefix);
    MatchCountGrows(ids, prefix, 0);
    if OrderId(prefix, c) in ids {
      var i :| 0 <= i < |ids| && ids[i] == OrderId(prefix, c);
      var ci := MatchCount(ids[..i], prefixes[i]);
      MatchCountGrows(ids[..i], prefixes[i], 0);
      ShortIdsDetermine(prefixes[i], ci, prefix, c);
      EntryCounted(ids, prefixes[i], i);
    }
  }

  /** Appending a generated id keeps the table generated. */
  lemma GeneratedExtend(ids: seq<string>, prefixes: seq<string>, prefix: string)
    requires GeneratedWith(ids, prefixes)
    ensures GeneratedWith(ids + [OrderId(prefix, MatchCount(ids, prefix))], prefixes + [prefix])
  {
    var ids' := ids + [OrderId(prefix, MatchCount(ids, prefix))];
    assert ids'[..|ids|] == ids;
    forall i | 0 <= i < |ids|
      ensures ids'[..i] == ids[..i]
    {
    }
  }
}
