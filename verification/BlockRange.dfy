/** Ranges of block numbers, closed below and open above. */
module BlockRanges {

  datatype Range = Range(start: nat, end: nat) {
    predicate NonEmpty() { start < end }
    predicate Contains(block: nat) { start <= block < end }
    function Len(): nat { if start <= end then end - start else 0 }
    function Mid(): nat requires start <= end { start + (end - start) / 2 }
  }
}
