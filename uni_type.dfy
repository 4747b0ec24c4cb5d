/** get_uni_type (utils.py:136-148): the kind of plot axis a column calls
    for, from the dtype of its non-missing values.  The dtype is passed in;
    reading the column from the session's data frame and pandas' dtype
    inference are not part of this model. */
module UniType {
  import opened Results

  /** The dtype families pandas' `is_*_dtype` tests tell apart; `Other`
      stands for every dtype none of them accepts (booleans, dates, ...). */
  datatype DType = Int | Float | Categorical | String | Other(name: string)

  const ErrorMessage: string := "Invalid dtype detected - logic error in code. dtype: "

  /** Integer and float dtypes are "numeric", categorical and string dtypes
      "categorical"; any other dtype raises a `RuntimeError` carrying it. */
  function GetUniType(dtype: DType): (r: Result<string, Exception>)
    ensures r.Ok? ==> r.value == "numeric" || r.value == "categorical"
    ensures r == Ok("numeric") <==> dtype == Int || dtype == Float
    ensures r == Ok("categorical") <==> dtype == Categorical || dtype == String
    ensures r.Err? <==> dtype.Other?
    ensures r.Err? ==> r.error == RuntimeError(ErrorMessage, dtype.name)
  {
    if dtype.Int? then Ok("numeric")
    else if dtype.Float? then Ok("numeric")
    else if dtype.Categorical? || dtype.String? then Ok("categorical")
    else Err(RuntimeError(ErrorMessage, dtype.name))
  }
}
