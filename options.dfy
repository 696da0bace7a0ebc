/** The optional value used for every nullable cell: `None` stands for Python's
    `None`, pandas' `NaN` and `pd.NA` alike. */
module Options {

  datatype Option<+T> = None | Some(value: T)
}
