/** The tutoring assistant's fixed knowledge: the corpus questions and their
    answers as two parallel lists in scan order, the vocabularies of the rule
    stages, the topic synonym table, the canned replies and the two tuning
    constants. None of it changes while the portal runs. */
module Corpus {

  /** The corpus questions, in the order the keyword stage scans them. */
  const FaqQuestions: seq<string> := [
    "How do I join live class?",
    "How to attempt quiz?",
    "How are recommendations generated?",
    "I forgot my password",
    "How do I track my progress?",
    "Can I retake a quiz?",
    "What is a fraction?",
    "How to add fractions?",
    "Convert 3/4 to decimal",
    "What is equivalent fraction?",
    "How to subtract fractions?",
    "How to study effectively?",
    "I'm struggling with math",
    "Tips for rural students",
    "How does AI tutoring work?",
    "Video not loading",
    "Quiz not submitting",
    "How to contact teacher?",
    "I feel discouraged",
    "Am I smart enough?"
  ]

  /** The corpus answers: `FaqAnswers[i]` answers `FaqQuestions[i]`. */
  const FaqAnswers: seq<string> := [
    "Click on any lesson from the Student Portal, then watch the video lesson. Teachers upload video content for you to learn at your own pace.",
    "Go to Student Portal → Select a lesson → Click 'Start Learning' → After watching the video, click 'Take Quiz' to test your knowledge.",
    "Our AI analyzes your quiz performance by topic. If you score below 70% in any topic, we recommend focusing on those areas for improvement.",
    "This platform doesn't require passwords! Just enter your name when taking quizzes to track your progress.",
    "Visit the Results page to see all your quiz attempts, scores, and performance analytics. You can access it from the main navigation.",
    "Yes! You can retake any quiz multiple times to improve your understanding and score.",
    "A fraction represents a part of a whole. It has two parts: numerator (top number) and denominator (bottom number). For example, in 3/4, 3 is the numerator and 4 is the denominator.",
    "To add fractions: 1) Make denominators the same, 2) Add numerators, 3) Keep the denominator. Example: 1/4 + 1/4 = 2/4 = 1/2",
    "To convert 3/4 to decimal, divide 3 by 4: 3 ÷ 4 = 0.75",
    "Equivalent fractions represent the same value but look different. Example: 1/2 = 2/4 = 3/6. Multiply or divide both numerator and denominator by the same number.",
    "Similar to addition: 1) Make denominators the same, 2) Subtract numerators, 3) Keep the denominator. Example: 3/4 - 1/4 = 2/4 = 1/2",
    "1) Watch video lessons completely, 2) Take notes of key points, 3) Practice with quizzes, 4) Review topics you scored low on, 5) Ask me questions when confused!",
    "Don't worry! Math takes practice. Start with basics, watch videos multiple times, take quizzes to identify weak areas, and ask specific questions. I'm here to help!",
    "1) Use this platform regularly, 2) Don't hesitate to ask questions, 3) Practice consistently, 4) Connect with urban teachers through video lessons, 5) Believe in yourself!",
    "I use artificial intelligence to understand your questions and provide helpful explanations. I can help with concepts, solve doubts, give study tips, and guide you through problems.",
    "Try refreshing the page or check your internet connection. If the problem persists, the teacher might be updating the video content.",
    "Make sure you've answered all questions and entered your name. Check your internet connection and try again.",
    "Currently, you can learn from teacher-created videos and use this AI tutor for doubts. More direct communication features are coming soon!",
    "Learning is a journey with ups and downs. Every expert was once a beginner. Keep practicing, use this platform regularly, and celebrate small victories. You've got this!",
    "Absolutely! Intelligence isn't fixed - it grows with effort and practice. This platform is designed to help you learn at your own pace. Keep going!"
  ]

  /** A corpus question sharing at least this many distinct word tokens
      with the input qualifies in the keyword stage. */
  const MinCommonWords: nat := 2

  /** The similarity stage answers only above this cosine score. */
  const SimilarityThreshold: real := 0.3

  const EmptyInputReply: string :=
    "I'm here to help! You can ask me about math concepts, how to use the platform, study tips, or anything else related to your learning journey. What's on your mind? 🤔"

  const GreetingWords: seq<string> := ["hello", "hi", "hey", "good morning", "good afternoon", "good evening", "howdy", "sup"]

  const GreetingReplies: seq<string> := [
    "Hello there! 👋 I'm your AI tutor, ready to help you learn and grow. What subject would you like to explore today?",
    "Hi! Great to see you here! 😊 I can help with math, study strategies, or any questions about the platform. What can I assist you with?",
    "Hey! Welcome to your learning session! 🎓 I'm here to make your studies easier and more effective. How can I help?"
  ]

  const ThanksWords: seq<string> := ["thank", "thanks", "thank you", "thx", "appreciate"]

  const ThanksReplies: seq<string> := [
    "You're very welcome! 😊 I'm always happy to help you succeed. Keep up the great work!",
    "My pleasure! That's what I'm here for. Feel free to ask me anything else - I love helping students learn! 🌟",
    "Glad I could help! Remember, there's no such thing as a silly question. I'm here whenever you need me! 💪"
  ]

  const DistressWords: seq<string> :=
    ["tired", "difficult", "hard", "struggling", "confused", "frustrated", "give up", "quit"]

  const DistressReply: string :=
    "I understand learning can be challenging sometimes, but you're doing great by asking for help! 💪 Remember, every expert was once a beginner. Take a short break if needed, then let's tackle this together. What specific topic is giving you trouble?"

  const ComplimentWords: seq<string> := ["good", "great", "awesome", "amazing", "helpful", "smart"]

  /** A compliment counts only when the input also mentions the assistant. */
  const SelfWords: seq<string> := ["you", "tutor"]

  const ComplimentReply: string :=
    "Thank you so much! 😊 Your kind words motivate me to help even more. I'm here to support your learning journey every step of the way. What else can we work on together?"

  /** Topic name, and the input substrings that select it. */
  const TopicKeywords: seq<(string, seq<string>)> := [
    ("fraction", ["fraction", "fractions", "numerator", "denominator"]),
    ("decimal", ["decimal", "decimals", "point"]),
    ("quiz", ["quiz", "test", "exam", "question"]),
    ("video", ["video", "lesson", "watch"]),
    ("study", ["study", "learn", "practice"])
  ]

  const NeedMoreHelp: string :=
    "\n\n💡 **Need more help?** Feel free to ask follow-up questions or request examples!"

  const WasHelpful: string :=
    "\n\n🤔 **Was this helpful?** If you need clarification or have a different question, just ask!"

  const MathWords: seq<string> := ["math", "mathematics"]

  const MathMenuReply: string :=
    "I love helping with math! 📚 I can explain fractions, decimals, basic operations, and more. Try asking specific questions like:\n• 'What is a fraction?'\n• 'How to add fractions?'\n• 'Convert fractions to decimals'\n\nWhat math topic interests you most?"

  const HelpWord: string := "help"

  const HelpMenuReply: string :=
    "I'm here to help! 🌟 You can ask me about:\n\n📚 **Math concepts** (fractions, decimals, operations)\n🎯 **Platform usage** (taking quizzes, watching videos)\n📝 **Study strategies** (effective learning tips)\n💡 **Motivation** (staying focused and confident)\n\nWhat specific topic would you like to explore?"

  const FallbackReplies: seq<string> := [
    "I want to help, but I'm not sure I understand your question completely. Could you rephrase it or be more specific? 🤔\n\n**I'm great at helping with:**\n• Math concepts (fractions, decimals, etc.)\n• Platform navigation\n• Study tips and strategies\n• Quiz guidance",
    "Hmm, that's an interesting question! I might need a bit more context to give you the best answer. 💭\n\n**Try asking about:**\n• Specific math topics\n• How to use platform features\n• Study techniques\n• Quiz preparation tips",
    "I'd love to help you with that! Could you provide a bit more detail or ask in a different way? 😊\n\n**Popular topics I can help with:**\n• Mathematics explanations\n• Learning strategies\n• Platform tutorials\n• Academic support"
  ]

  /** The reply texts the assistant draws on, gathered in one table. */
  datatype Texts = Texts(
    emptyInput: string,
    greetings: seq<string>,
    thanks: seq<string>,
    distress: string,
    compliment: string,
    answers: seq<string>,
    needMoreHelp: string,
    wasHelpful: string,
    mathMenu: string,
    helpMenu: string,
    fallbacks: seq<string>)

  /** The portal's own replies. */
  const Canned: Texts := Texts(
    EmptyInputReply, GreetingReplies, ThanksReplies, DistressReply, ComplimentReply,
    FaqAnswers, NeedMoreHelp, WasHelpful, MathMenuReply, HelpMenuReply, FallbackReplies)

  /** A list to pick from at random: not empty, and no entry empty. */
  predicate Choices(ts: seq<string>) {
    |ts| > 0 && forall k :: 0 <= k < |ts| ==> ts[k] != []
  }

  /** A table the assistant can always answer from: no fixed text is empty,
      every random reply has something to pick, and every corpus question
      has an answer. */
  predicate Complete(t: Texts) {
    && t.emptyInput != [] && t.distress != [] && t.compliment != []
    && t.needMoreHelp != [] && t.wasHelpful != []
    && t.mathMenu != [] && t.helpMenu != []
    && Choices(t.greetings) && Choices(t.thanks) && Choices(t.fallbacks)
    && |t.answers| == |FaqQuestions|
  }

  /** Each random reply is drawn from three non-empty texts. */
  lemma RandomRepliesChoices()
    ensures |GreetingReplies| == |ThanksReplies| == |FallbackReplies| == 3
    ensures Choices(GreetingReplies) && Choices(ThanksReplies) && Choices(FallbackReplies)
  {
    assert |GreetingReplies| == 3 && GreetingReplies[0] != [] && GreetingReplies[1] != [] && GreetingReplies[2] != [];
    assert |ThanksReplies| == 3 && ThanksReplies[0] != [] && ThanksReplies[1] != [] && ThanksReplies[2] != [];
    assert |FallbackReplies| == 3 && FallbackReplies[0] != [] && FallbackReplies[1] != [] && FallbackReplies[2] != [];
  }

  /** Every corpus question has its answer. */
  lemma CorpusAligned()
    ensures |FaqAnswers| == |FaqQuestions| == 20
  {
  }

  /** The portal's replies form a complete table. */
  lemma CannedComplete()
    ensures Complete(Canned)
    ensures |Canned.greetings| == |Canned.thanks| == |Canned.fallbacks| == 3
  {
    RandomRepliesChoices();
    CorpusAligned();
  }
}

