/** The shell's argument list (kernel/shell.c:175-183). */
module CommandLine {
  import opened Bytes
  import opened CString
  import opened Tokens

  const MAX_ARGS := 20
  const BLANKS: Bytes := [' ', '\t', '\n']

  class Shell {
    const args: array<int>
    var argCount: nat

    constructor ()
      ensures fresh(args) && args.Length == MAX_ARGS && argCount == 0
    {
      args := new int[MAX_ARGS];
      argCount := 0;
    }

    // The first 19 words of the line, and NULL behind them; the words stay readable where the arguments point.
    method ParseCommand(line: Tokenizer)
      requires args.Length == MAX_ARGS && line.Valid() && Terminated(line.buf[..])
      modifies this, args, line, line.buf
      ensures var ts := TokensOf(old(CStr(line.buf[..])), BLANKS);
              && argCount == Min(|ts|, MAX_ARGS - 1)
              && args[argCount] == NULL
              && forall i :: 0 <= i < argCount ==> Points(line.buf[..], args[..], ts, i)
    {
      hide TokensOf, CStr, TokenTaken, Points, WordEnd;
      ghost var ts := TokensOf(CStr(line.buf[..]), BLANKS);
      ghost var b := line.buf[..];
      argCount := 0;
      assert line.buf[0..] == line.buf[..] && b[0..] == b;
      var token := line.Strtok(0, BLANKS);
      FirstInHand(b, line.buf[..], 0, line.save, token, BLANKS);
      ghost var x: nat := WordEnd(line.buf[..], token, 0);
      while token != NULL && argCount < MAX_ARGS - 1
        invariant argCount <= MAX_ARGS - 1 && line.Valid()
        invariant InHand(line.buf[..], ts, argCount, token, line.save, x, BLANKS)
        invariant Filled(line.buf[..], args[..], ts, argCount, x)
        decreases MAX_ARGS - argCount
      {
        b := line.buf[..];
        ghost var was, s, n, t := args[..], line.save, argCount, token;
        args[argCount] := token;
        argCount := argCount + 1;
        assert args[..] == was[n := t];
        token := line.Strtok(NULL, BLANKS);
        NextInHand(b, line.buf[..], was, ts, n, t, s, line.save, token, x, BLANKS);
        x := WordEnd(line.buf[..], token, x);
      }
      ghost var was := args[..];
      args[argCount] := NULL;
      forall i | 0 <= i < argCount
        ensures Points(line.buf[..], args[..], ts, i)
      {
        PointsSame(line.buf[..], was, args[..], ts, i);
      }
    }
  }
}
