/** The end-to-end cases of the unit tests, over the dictionary file they read
    (test, pest, post, most, fail): what the proved contract of the search decides about them. */
module Scenarios {
  import opened Heuristic
  import opened Search

  /** Which words of the file are one letter apart: test-pest, pest-post and post-most, and no
      other pair that the two found cases meet. */
  lemma FileNeighbours()
    ensures OneLetterApart("most", "post") && OneLetterApart("post", "pest") && OneLetterApart("pest", "test")
    ensures !OneLetterApart("most", "pest") && !OneLetterApart("most", "fail") && !OneLetterApart("most", "test")
    ensures !OneLetterApart("most", "most")
    ensures !OneLetterApart("post", "test") && !OneLetterApart("post", "fail") && !OneLetterApart("pest", "fail")
  {
    FourLetterMismatches("most", "post");
    FourLetterMismatches("post", "pest");
    FourLetterMismatches("pest", "test");
    FourLetterMismatches("most", "pest");
    FourLetterMismatches("most", "fail");
    FourLetterMismatches("most", "test");
    FourLetterMismatches("most", "most");
    FourLetterMismatches("post", "test");
    FourLetterMismatches("post", "fail");
    FourLetterMismatches("pest", "fail");
  }

  /** The only ladder from "most" back to "test" through pest, post and fail that repeats no word is
      most, post, pest, test. */
  lemma {:induction false} MostToTestLadder(l: seq<string>)
    requires LadderThrough(l, "most", "test", ["pest", "post", "fail"]) && NoRepeatedWord(l)
    ensures l == ["most", "post", "pest", "test"]
  {
    FileNeighbours();
    assert OneLetterApart(l[0], l[1]);
    assert |l| != 2;
    assert l[1] in ["pest", "post", "fail"] && l[1] == "post";
    assert OneLetterApart(l[1], l[2]);
    assert |l| != 3;
    assert l[2] in ["pest", "post", "fail"] && l[2] != l[1] && l[2] == "pest";
    assert OneLetterApart(l[2], l[3]);
  }

  /** The only ladder from "post" back to "pest" through test, most and fail is post, pest: the one
      pool word next to post, most, leads nowhere. */
  lemma {:induction false} PostToPestLadder(l: seq<string>)
    requires LadderThrough(l, "post", "pest", ["test", "most", "fail"])
    ensures l == ["post", "pest"]
  {
    FileNeighbours();
    if |l| > 2 {
      MostIsDeadEnd(l[2]);
      assert false;
    }
    assert l[0] == "post" && l[1] == "pest";
  }

  /** No word of the file other than post is one letter away from "most". */
  lemma MostIsDeadEnd(w: string)
    requires w in ["test", "most", "fail", "pest"]
    ensures !OneLetterApart("most", w)
  {
    FileNeighbours();
  }

  /** "fail" is at least three letters away from every other word of the file. */
  lemma FailIsIsolated(w: string)
    requires w in ["pest", "post", "most", "test"]
    ensures !OneLetterApart("fail", w)
  {
    FourLetterMismatches("fail", "pest");
    FourLetterMismatches("fail", "post");
    FourLetterMismatches("fail", "most");
    FourLetterMismatches("fail", "test");
  }

  /** So no ladder leaves "fail", whatever the order of the pool. */
  lemma NoLadderFromFail(pool: seq<string>)
    requires forall w :: w in pool ==> w in ["pest", "post", "most"]
    ensures forall l :: !LadderThrough(l, "fail", "test", pool)
  {
    forall l | LadderThrough(l, "fail", "test", pool)
      ensures false
    {
      FailIsIsolated(l[1]);
    }
  }

  /** test -> most: the search finds most, post, pest, test, the four words the tests expect. */
  method TestToMost() returns (foundResult: bool, resultPath: seq<string>)
    ensures foundResult && resultPath == ["most", "post", "pest", "test"]
  {
    var pool := ["pest", "post", "fail"];
    foundResult, resultPath := AStarAnalyse("test", "most", pool);
    FileNeighbours();
    assert LadderThrough(["most", "post", "pest", "test"], "most", "test", pool);
    MostToTestLadder(resultPath);
  }

  /** pest -> post: the search finds post, pest, the two words the tests expect. */
  method PestToPost() returns (foundResult: bool, resultPath: seq<string>)
    ensures foundResult && resultPath == ["post", "pest"]
  {
    var pool := ["test", "most", "fail"];
    foundResult, resultPath := AStarAnalyse("pest", "post", pool);
    FileNeighbours();
    assert LadderThrough(["post", "pest"], "post", "pest", pool);
    PostToPestLadder(resultPath);
  }

  /** test -> fail: whatever the order of the remaining words, nothing is found and the path is empty. */
  method TestToFail(pool: seq<string>) returns (foundResult: bool, resultPath: seq<string>)
    requires forall w :: w in pool ==> w in ["pest", "post", "most"]
    ensures !foundResult && resultPath == []
  {
    foundResult, resultPath := AStarAnalyse("test", "fail", pool);
    NoLadderFromFail(pool);
  }
}
