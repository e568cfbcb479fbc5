/** Two message keys of the perfect link that have the same hash. */
module Collision {
  import opened Djb2

  /**
   Two ids of version 4 (RFC 9562, section 5.4) in groups of six characters:
   20010030-0100-4100-8030-000100201000 and 01101101-1000-4001-8101-002011010100.
   */
  const ID_A := "200100" + "30-010" + "0-4100" + "-8030-" + "000100" + "201000"
  const ID_B := "011011" + "01-100" + "0-4001" + "-8101-" + "002011" + "010100"

  lemma PolySnoc(s: string, c: char)
    ensures Poly(s + [c]) == 33 * Poly(s) + CharValue(c)
  {
    assert (s + [c])[..|s|] == s;
  }

  lemma PolyThree(s: string, a: char, b: char, c: char)
    ensures Poly(s + [a, b, c]) == 35937 * Poly(s) + 1089 * CharValue(a) + 33 * CharValue(b) + CharValue(c)
  {
    PolySnoc(s, a);
    PolySnoc(s + [a], b);
    PolySnoc(s + [a] + [b], c);
    assert s + [a, b, c] == s + [a] + [b] + [c];
  }

  /** Six more characters. */
  lemma PolySix(s: string, u: string)
    requires |u| == 6
    ensures Poly(s + u) == 1291467969 * Poly(s) + 39135393 * CharValue(u[0]) + 1185921 * CharValue(u[1])
                           + 35937 * CharValue(u[2]) + 1089 * CharValue(u[3]) + 33 * CharValue(u[4]) + CharValue(u[5])
  {
    var half := s + [u[0], u[1], u[2]];
    PolyThree(s, u[0], u[1], u[2]);
    PolyThree(half, u[3], u[4], u[5]);
    assert s + u == half + [u[3], u[4], u[5]];
  }

  /** The difference of two polynomials after six more characters each. */
  lemma Six(s: string, u: string, t: string, v: string, before: int, after: int)
    requires |u| == |v| == 6 && Poly(s) - Poly(t) == before
    requires after == 1291467969 * before
                      + 39135393 * (CharValue(u[0]) - CharValue(v[0])) + 1185921 * (CharValue(u[1]) - CharValue(v[1]))
                      + 35937 * (CharValue(u[2]) - CharValue(v[2])) + 1089 * (CharValue(u[3]) - CharValue(v[3]))
                      + 33 * (CharValue(u[4]) - CharValue(v[4])) + (CharValue(u[5]) - CharValue(v[5]))
    ensures Poly(s + u) - Poly(t + v) == after
  {
    PolySix(s, u);
    PolySix(t, v);
  }

  lemma Regroup(p: string, c1: string, c2: string, c3: string, c4: string, c5: string, c6: string)
    ensures p + (c1 + c2 + c3 + c4 + c5 + c6) == p + c1 + c2 + c3 + c4 + c5 + c6
  {
  }

  lemma FirstHalf(p: string)
    ensures Poly(p + "200100" + "30-010" + "0-4100") - Poly(p + "011011" + "01-100" + "0-4001")
         == 128510858923099113810047489
  {
    Six(p, "200100", p, "011011", 0, 77049983);
    Six(p + "200100", "30-010", p + "011011", "01-100", 77049983, 99507585172713729);
    Six(p + "200100" + "30-010", "0-4100", p + "011011" + "01-100", "0-4001",
        99507585172713729, 128510858923099113810047489);
  }

  lemma SecondHalf(s: string, t: string)
    requires Poly(s) - Poly(t) == 128510858923099113810047489
    ensures Poly(s + "-8030-" + "000100" + "201000") - Poly(t + "-8101-" + "002011" + "010100")
         == WORD * 15006210062859682796355653999665170
  {
    Six(s, "-8030-", t, "-8101-", 128510858923099113810047489, 165967657967860339697961882412347138);
    Six(s + "-8030-", "000100", t + "-8101-", "002011",
        165967657967860339697961882412347138, 214341914155439260185376905718490778835751903);
    Six(s + "-8030-" + "000100", "201000", t + "-8101-" + "002011", "010100",
        214341914155439260185376905718490778835751903, 276815716545897491654471275927763771888236694832414720);
  }

  /** Behind any common prefix their polynomials differ by a multiple of 2^64. */
  lemma IdsCollide(p: string)
    ensures Hash(p + ID_A) == Hash(p + ID_B)
  {
    FirstHalf(p);
    SecondHalf(p + "200100" + "30-010" + "0-4100", p + "011011" + "01-100" + "0-4001");
    Regroup(p, "200100", "30-010", "0-4100", "-8030-", "000100", "201000");
    Regroup(p, "011011", "01-100", "0-4001", "-8101-", "002011", "010100");
    SameRemainder(Poly(p + ID_A), Poly(p + ID_B), 15006210062859682796355653999665170);
  }

  lemma IdsDiffer()
    ensures |ID_A| == |ID_B| == 36 && ID_A != ID_B && ',' !in ID_A && ',' !in ID_B
  {
    assert ID_A[0] == '2' && ID_B[0] == '0';
  }
}
