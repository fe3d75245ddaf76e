/**
 * The desired parameters of one pool (a `TpExecutorProps` record) and the
 * checks applied to them before a refresh.
 */
module Params {

  /** A value that may be absent; `None` stands for Java's `null`. */
  datatype Option<T> = None | Some(value: T)

  /** Desired parameters for one pool.  Keep-alive is a single integer in one
      common time unit; a `null` alias is the empty string, which is blank. */
  datatype TpExecutorProps = TpExecutorProps(
    threadPoolName: string,
    corePoolSize: int,
    maximumPoolSize: int,
    keepAliveTime: int,
    threadPoolAliasName: string)

  /** The structural validation of desired parameters.  It is inherited from
      the adapter interface, whose text is not part of this model; it is
      taken to reject a negative core size, a non-positive max size, a max
      size below the core size and a negative keep-alive. */
  predicate ContainsInvalidParams(p: TpExecutorProps)
  {
    p.corePoolSize < 0 || p.maximumPoolSize <= 0
    || p.maximumPoolSize < p.corePoolSize || p.keepAliveTime < 0
  }

  /** Java's `Character.isWhitespace`: the ASCII controls tab to carriage
      return and the file/group/record/unit separators, space, and the
      Unicode space, line and paragraph separators other than the
      non-breaking ones (U+00A0, U+2007, U+202F). */
  predicate IsWhitespace(c: char)
  {
    var n := c as int;
    (0x09 <= n <= 0x0D) || (0x1C <= n <= 0x20)
    || n == 0x1680 || (0x2000 <= n <= 0x2006) || (0x2008 <= n <= 0x200A)
    || n == 0x2028 || n == 0x2029 || n == 0x205F || n == 0x3000
  }

  /** `StringUtils.isNotBlank`: some character is not whitespace. */
  predicate IsNotBlank(s: string)
  {
    exists i :: 0 <= i < |s| && !IsWhitespace(s[i])
  }
}
