/** The optional value used wherever the chart script gets an undefined or
    failed result: no matching colour row, a NaN year span, or a thrown
    error when a fill is read from a missing row. */
module Wrappers {

  datatype Option<+T> = None | Some(value: T)
}
