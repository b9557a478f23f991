/**
 * The logger facade: one process-wide threshold `level`, and five log
 * methods that forward a message to the platform log only when the
 * threshold is at or below the message's severity.
 */
module Logger {

  /** Severities, with the platform's numeric values. */
  const LEVEL_VERBOSE: int := 2
  const LEVEL_DEBUG: int := 3
  const LEVEL_INFO: int := 4
  const LEVEL_WARN: int := 5
  const LEVEL_ERROR: int := 6
  /** The threshold that silences every severity. */
  const LEVEL_NONE: int := 100

  datatype Severity = Verbose | Debug | Info | Warn | Error

  function SeverityValue(s: Severity): (v: int)
    ensures LEVEL_VERBOSE <= v <= LEVEL_ERROR
  {
    match s
    case Verbose => LEVEL_VERBOSE
    case Debug => LEVEL_DEBUG
    case Info => LEVEL_INFO
    case Warn => LEVEL_WARN
    case Error => LEVEL_ERROR
  }

  /** Whether a message of severity `s` reaches the platform log under threshold `level`. */
  predicate Emits(level: int, s: Severity)
  {
    level <= SeverityValue(s)
  }

  /** Raising the severity never silences a message that was emitted. */
  lemma EmitsMonotone(level: int, s: Severity, t: Severity)
    requires Emits(level, s) && SeverityValue(s) <= SeverityValue(t)
    ensures Emits(level, t)
  {
  }

  /** Threshold 0 (the initial value) and VERBOSE let every severity through; NONE lets none through. */
  lemma ThresholdExtremes(s: Severity)
    ensures Emits(0, s) && Emits(LEVEL_VERBOSE, s)
    ensures !Emits(LEVEL_NONE, s)
  {
  }

  /** The process-wide logger state (the static field `level`). */
  class L {
    var level: int

    /** Before any configuration call the threshold is 0. */
    constructor ()
      ensures level == 0
      ensures forall s: Severity :: Emits(level, s)
    {
      level := 0;
    }

    method EnableLogging(newLevel: int)
      modifies this
      ensures level == newLevel
    {
      level := newLevel;
    }

    /** The no-argument overload enables every severity. */
    method EnableVerbose()
      modifies this
      ensures level == LEVEL_VERBOSE
      ensures forall s: Severity :: Emits(level, s)
    {
      EnableLogging(LEVEL_VERBOSE);
    }

    /** Same effect as EnableLogging. */
    method SetLoggingLevel(newLevel: int)
      modifies this
      ensures level == newLevel
    {
      EnableLogging(newLevel);
    }

    method DisableLogging()
      modifies this
      ensures level == LEVEL_NONE
      ensures forall s: Severity :: !Emits(level, s)
    {
      level := LEVEL_NONE;
    }

    /** v/d/i/w/e: reports whether the message is forwarded to the platform log. */
    method Log(s: Severity) returns (emitted: bool)
      ensures emitted <==> level <= SeverityValue(s)
    {
      emitted := level <= SeverityValue(s);
    }
  }
}
