/** The sorted order of concrete columns. */
module SortCases {
  import opened TableSort

  /** A `string` column with mixed case: `banana, Apple, cherry` sorts to
      `Apple, banana, cherry`. */
  lemma MixedCaseNames()
    ensures SortRows(Str, 0, [["banana"], ["Apple"], ["cherry"]]) == [["Apple"], ["banana"], ["cherry"]]
  {
  }

  /** Lower-casing decides here: code-point order alone would put `Cherry`
      first, but `cherry` sorts after `apple` and `banana`. */
  lemma MixedCaseCherry()
    ensures SortRows(Str, 0, [["banana"], ["Cherry"], ["apple"]]) == [["apple"], ["banana"], ["Cherry"]]
  {
  }

  /** A `status` column: the `success` row moves ahead of both `fail` rows. */
  lemma StatusColumn()
    ensures SortRows(Status, 0, [["fail"], ["success"], ["fail"]]) == [["success"], ["fail"], ["fail"]]
  {
    assert StatusRank("fail") == Some(0) && StatusRank("success") == Some(1);
  }
}
