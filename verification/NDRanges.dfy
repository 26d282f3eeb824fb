/** NDRanges (LibKernelExpr/src/NDRange.cpp). Entry d of each sequence belongs to dimension d. */
module NDRanges {

  datatype NDRange = NDRange(workDim: nat, origGlobal: seq<nat>, global: seq<nat>, offset: seq<nat>, local: seq<nat>)

  ghost predicate Valid(r: NDRange) {
    && |r.origGlobal| == |r.global| == |r.offset| == |r.local| == r.workDim
    && forall d :: 0 <= d < r.workDim ==> r.local[d] > 0
  }

  // Every dimension is made of whole, non-empty work-groups.
  ghost predicate WholeGroups(r: NDRange) {
    && Valid(r)
    && forall d :: 0 <= d < r.workDim ==>
      r.global[d] > 0 && r.global[d] % r.local[d] == 0 && r.offset[d] % r.local[d] == 0
  }
}
