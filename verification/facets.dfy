/**
  `extractAlumniInfo` (services/alumni/alumni-schema.ts): the filter options of the directory.
  Three insertion-ordered sets collect every non-empty domicile, company and skill of the
  records; the result lists each set in insertion order, that is, by first appearance.
*/
module Facets {
  import opened Seqs
  import opened Sheet

  /** The three option lists, as `extractAlumniInfo` returns them. */
  datatype AlumniInfo = AlumniInfo(domiciles: seq<string>, companies: seq<string>, skills: seq<string>)

  /** `if (v) set.add(v)`: an empty string is skipped and a value already present stays where it is. */
  function AddIfPresent(acc: seq<string>, v: string): seq<string> {
    if v != "" && v !in acc then acc + [v] else acc
  }

  /**
    The reference definition: the non-empty values of `s` without repetition, each at the
    position of its first appearance.
  */
  function Distinct(s: seq<string>): seq<string>
    decreases |s|
  {
    if s == [] then [] else AddIfPresent(Distinct(s[..|s| - 1]), s[|s| - 1])
  }

  /** The index of the first occurrence of `x` in `s`. */
  function FirstIndex(s: seq<string>, x: string): (i: nat)
    requires x in s
    ensures i < |s| && s[i] == x && forall j :: 0 <= j < i ==> s[j] != x
    decreases |s|
  {
    if s[0] == x then 0 else 1 + FirstIndex(s[1..], x)
  }

  /**
    `Array.from(set)` after adding the values of `s` in order: exactly the non-empty values of
    `s`, none twice, ordered by first appearance in `s`.
  */
  lemma {:induction false} DistinctSpec(s: seq<string>)
    ensures forall x :: x in Distinct(s) <==> x in s && x != ""
    ensures NoDuplicates(Distinct(s))
    ensures forall i, j :: 0 <= i < j < |Distinct(s)| ==> FirstIndex(s, Distinct(s)[i]) < FirstIndex(s, Distinct(s)[j])
    decreases |s|
  {
    if s != [] {
      var init, last := s[..|s| - 1], s[|s| - 1];
      var d := Distinct(init);
      DistinctSpec(init);
      assert s == init + [last];
      assert forall x :: x in s <==> x in init || x == last;
      forall x | x in init ensures FirstIndex(s, x) == FirstIndex(init, x) {
        FirstIndexPrefix(init, [last], x);
      }
      var r := Distinct(s);
      if last != "" && last !in d {
        assert r == d + [last];
        assert last !in init;
        assert FirstIndex(s, last) == |init|;
        forall i, j | 0 <= i < j < |r| ensures FirstIndex(s, r[i]) < FirstIndex(s, r[j]) {
          assert r[i] == d[i] && r[i] in init;
          if j < |d| {
            assert r[j] == d[j] && r[j] in init;
          }
        }
      } else {
        assert r == d;
        forall i, j | 0 <= i < j < |r| ensures FirstIndex(s, r[i]) < FirstIndex(s, r[j]) {
          assert r[i] in init && r[j] in init;
        }
      }
    }
  }

  /** The first occurrence in a prefix is the first occurrence in the whole. */
  lemma {:induction false} FirstIndexPrefix(a: seq<string>, b: seq<string>, x: string)
    requires x in a
    ensures x in a + b && FirstIndex(a + b, x) == FirstIndex(a, x)
    decreases |a|
  {
    if a[0] != x {
      assert (a + b)[1..] == a[1..] + b;
      FirstIndexPrefix(a[1..], b, x);
    }
  }

  /** The domicile of every record, in order. */
  function Domiciles(rs: seq<Record>): (ds: seq<string>)
    ensures |ds| == |rs| && forall i :: 0 <= i < |rs| ==> ds[i] == rs[i].domicile
  {
    seq(|rs|, i requires 0 <= i < |rs| => rs[i].domicile)
  }

  /** The company of every record, in order. */
  function Companies(rs: seq<Record>): (cs: seq<string>)
    ensures |cs| == |rs| && forall i :: 0 <= i < |rs| ==> cs[i] == rs[i].company
  {
    seq(|rs|, i requires 0 <= i < |rs| => rs[i].company)
  }

  /** Every record's skills, one record after another. */
  function AllSkills(rs: seq<Record>): seq<string>
    decreases |rs|
  {
    if rs == [] then [] else AllSkills(rs[..|rs| - 1]) + rs[|rs| - 1].skills
  }

  /** One record more: each field's values grow by that record's values. */
  lemma FieldsSnoc(alumni: seq<Record>, n: nat)
    requires n < |alumni|
    ensures Domiciles(alumni[..n + 1]) == Domiciles(alumni[..n]) + [alumni[n].domicile]
    ensures Companies(alumni[..n + 1]) == Companies(alumni[..n]) + [alumni[n].company]
    ensures AllSkills(alumni[..n + 1]) == AllSkills(alumni[..n]) + alumni[n].skills
  {
    assert alumni[..n + 1][..n] == alumni[..n];
  }

  /**
    The loop of `extractAlumniInfo`. Each list is the distinct non-empty values of its field
    across the records, in order of first appearance.
  */
  method ExtractAlumniInfo(alumni: seq<Record>) returns (info: AlumniInfo)
    ensures info.domiciles == Distinct(Domiciles(alumni))
    ensures info.companies == Distinct(Companies(alumni))
    ensures info.skills == Distinct(AllSkills(alumni))
  {
    var domiciles, companies, allSkills := [], [], [];
    var n := 0;
    while n < |alumni|
      invariant n <= |alumni|
      invariant domiciles == Distinct(Domiciles(alumni[..n]))
      invariant companies == Distinct(Companies(alumni[..n]))
      invariant allSkills == Distinct(AllSkills(alumni[..n]))
    {
      var alumnus := alumni[n];
      FieldsSnoc(alumni, n);
      DistinctSnoc(Domiciles(alumni[..n]), alumnus.domicile);
      DistinctSnoc(Companies(alumni[..n]), alumnus.company);
      domiciles := AddIfPresent(domiciles, alumnus.domicile);
      companies := AddIfPresent(companies, alumnus.company);
      allSkills := AddSkills(allSkills, AllSkills(alumni[..n]), alumnus.skills);
      n := n + 1;
    }
    assert alumni[..n] == alumni;
    info := AlumniInfo(domiciles, companies, allSkills);
  }

  /** The inner loop over one record's skills. */
  method AddSkills(acc: seq<string>, ghost seen: seq<string>, skills: seq<string>) returns (r: seq<string>)
    requires acc == Distinct(seen)
    ensures r == Distinct(seen + skills)
  {
    r := acc;
    var k := 0;
    assert seen + skills[..0] == seen;
    while k < |skills|
      invariant k <= |skills|
      invariant r == Distinct(seen + skills[..k])
    {
      assert seen + skills[..k + 1] == (seen + skills[..k]) + [skills[k]];
      DistinctSnoc(seen + skills[..k], skills[k]);
      r := AddIfPresent(r, skills[k]);
      k := k + 1;
    }
    assert skills[..k] == skills;
  }

  /** Appending one value adds it once, when it is non-empty and new. */
  lemma DistinctSnoc(s: seq<string>, v: string)
    ensures Distinct(s + [v]) == AddIfPresent(Distinct(s), v)
  {
    assert (s + [v])[..|s + [v]| - 1] == s;
  }
}
