/** Truth values with an unknown. */
module ThreeValued {
  datatype Tvt = TvFalse | TvUnknown | TvTrue

  function TvAnd(a: Tvt, b: Tvt): Tvt {
    if a.TvFalse? || b.TvFalse? then TvFalse else if a.TvTrue? && b.TvTrue? then TvTrue else TvUnknown
  }

  function TvNot(a: Tvt): Tvt {
    match a
    case TvUnknown => TvUnknown
    case TvTrue => TvFalse
    case TvFalse => TvTrue
  }
}
